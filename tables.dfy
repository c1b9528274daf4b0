/** html_table: an optional header row of `th` cells, then one `tr` per
    row.  The `$cells` accumulator is reset only for a row that is an array,
    so a scalar row adds its `td` to the cells of the row before it. */
module Tables {
  import opened Text
  import opened Attributes
  import opened Element

  /** A row: an array of cells, or a scalar that becomes one cell. */
  type Row = Arg<string>

  function DataCell(cell: string): string
  {
    HtmlElement("td", cell, Arr([]), false)
  }

  function HeaderCell(header: string): string
  {
    HtmlElement("th", header, Arr([]), false)
  }

  function TableRow(cells: string): string
  {
    HtmlElement("tr", cells, Arr([]), false)
  }

  /** `$concatenated_header`: a row of `th` cells for a non-empty array of
      headers, nothing otherwise. */
  function HeaderRow(headers: Arg<string>): string
  {
    if headers.Arr? && headers.items != [] then TableRow(Concat(headers.items, HeaderCell)) else ""
  }

  /** `$cells` after one pass of the row loop, given its value before: an
      array row starts afresh, a scalar row appends one `td`. */
  function NextCells(row: Row, cells: string): string
  {
    match row
    case Arr(items) => Concat(items, DataCell)
    case Scalar(text) => cells + DataCell(text)
  }

  /** `$cells` once the loop has been through rows ("" before any row). */
  function CellsAfter(rows: seq<Row>): string
  {
    if rows == [] then "" else NextCells(rows[|rows| - 1], CellsAfter(rows[..|rows| - 1]))
  }

  /** `$concatenated_cells` once the loop has been through rows. */
  function BodyRows(rows: seq<Row>): string
  {
    if rows == [] then "" else BodyRows(rows[..|rows| - 1]) + TableRow(CellsAfter(rows))
  }

  /** The element html_table returns. */
  function TableText(headers: Arg<string>, rows: Arg<Row>, attributes: Arg<Attr>): string
  {
    HtmlElement("table", HeaderRow(headers) + BodyRows(Entries(rows)), attributes, false)
  }

  /** html_table: the header loop, then the row loop with the inner cell
      loop.  `$cells` and `$concatenated_cells` are never initialised in the
      source outside the loop; PHP reads an undefined variable as "". */
  method HtmlTable(headers: Arg<string>, rows: Arg<Row>, attributes: Arg<Attr>) returns (r: string)
    ensures r == TableText(headers, rows, attributes)
  {
    var concatenatedHeader := "";
    if headers.Arr? && |headers.items| > 0 {
      var titles := headers.items;
      var tableHeadings := "";
      for i := 0 to |titles|
        invariant tableHeadings == Concat(titles[..i], HeaderCell)
      {
        tableHeadings := tableHeadings + HtmlElement("th", titles[i], Arr([]), false);
        ConcatStep(titles, i, HeaderCell);
      }
      assert titles[..|titles|] == titles;
      concatenatedHeader := HtmlElement("tr", tableHeadings, Arr([]), false);
    }
    var cells := "";
    var concatenatedCells := "";
    if rows.Arr? {
      var all := rows.items;
      for i := 0 to |all|
        invariant cells == CellsAfter(all[..i])
        invariant concatenatedCells == BodyRows(all[..i])
      {
        var row := all[i];
        if row.Arr? {
          cells := "";
          for j := 0 to |row.items|
            invariant cells == Concat(row.items[..j], DataCell)
          {
            cells := cells + HtmlElement("td", row.items[j], Arr([]), false);
            ConcatStep(row.items, j, DataCell);
          }
          assert row.items[..|row.items|] == row.items;
        } else {
          cells := cells + HtmlElement("td", row.text, Arr([]), false);
        }
        concatenatedCells := concatenatedCells + HtmlElement("tr", cells, Arr([]), false);
        assert all[..i + 1][..i] == all[..i];
      }
      assert all[..|all|] == all;
    }
    r := HtmlElement("table", concatenatedHeader + concatenatedCells, attributes, false);
  }

  lemma TableWrapped(content: string, attributes: Arg<Attr>)
    ensures HtmlElement("table", content, attributes, false)
         == "<table " + AttributesText(attributes) + ">" + content + "</table>"
  {
  }

  lemma RowLayout(cells: string)
    ensures TableRow(cells) == "<tr >" + cells + "</tr>"
  {
    assert AttributesText(Arr([])) == "";
  }

  /** The header row comes first and the body rows follow it. */
  lemma TableLayout(headers: Arg<string>, rows: Arg<Row>, attributes: Arg<Attr>)
    ensures TableText(headers, rows, attributes)
         == "<table " + AttributesText(attributes) + ">" + (HeaderRow(headers) + BodyRows(Entries(rows))) + "</table>"
  {
    TableWrapped(HeaderRow(headers) + BodyRows(Entries(rows)), attributes);
  }

  /** The header row exists exactly for a non-empty header array, and is
      then one `tr` of one `th` per header, in order. */
  lemma HeaderRowPresent(headers: Arg<string>)
    ensures HeaderRow(headers) != "" <==> headers.Arr? && headers.items != []
    ensures headers.Arr? && headers.items != [] ==>
      HeaderRow(headers) == "<tr >" + Concat(headers.items, HeaderCell) + "</tr>"
  {
    if headers.Arr? && headers.items != [] {
      RowLayout(Concat(headers.items, HeaderCell));
    }
  }

  /** The cells a row contributes on its own: its array of cells, or the
      single cell of a scalar. */
  function OwnCells(row: Row): string
  {
    match row
    case Arr(items) => Concat(items, DataCell)
    case Scalar(text) => DataCell(text)
  }

  /** The `tr` a row yields when no cells are carried over from the rows
      before it. */
  function OwnRow(row: Row): string
  {
    TableRow(OwnCells(row))
  }

  /** When every row is an array, each row yields exactly one `tr` holding
      one `td` per cell of that row, in order. */
  lemma {:induction false} ArrayRowsStandAlone(rows: seq<Row>)
    requires forall i :: 0 <= i < |rows| ==> rows[i].Arr?
    ensures BodyRows(rows) == Concat(rows, OwnRow)
  {
    if rows != [] {
      ArrayRowsStandAlone(rows[..|rows| - 1]);
    }
  }

  /** A scalar row's `tr` holds the cells left in `$cells` by the rows
      before it, followed by its own `td`. */
  lemma ScalarRowCarries(before: seq<Row>, text: string)
    ensures BodyRows(before + [Scalar(text)])
         == BodyRows(before) + TableRow(CellsAfter(before) + DataCell(text))
  {
    var rows := before + [Scalar(text)];
    assert rows[..|rows| - 1] == before;
  }

  /** What is carried: after an array row and any run of scalar rows,
      `$cells` holds that array row's cells, then one `td` per scalar. */
  lemma {:induction false} CellsAfterScalars(before: seq<Row>, scalars: seq<Row>)
    requires forall i :: 0 <= i < |scalars| ==> scalars[i].Scalar?
    ensures CellsAfter(before + scalars) == CellsAfter(before) + Concat(scalars, OwnCells)
    decreases |scalars|
  {
    if scalars == [] {
      assert before + scalars == before;
    } else {
      var rows := before + scalars;
      var init, last := scalars[..|scalars| - 1], scalars[|scalars| - 1];
      assert rows[..|rows| - 1] == before + init;
      assert rows[|rows| - 1] == last;
      CellsAfterScalars(before, init);
      var carried, own := CellsAfter(before), Concat(init, OwnCells);
      assert CellsAfter(rows) == (carried + own) + DataCell(last.text);
      assert Concat(scalars, OwnCells) == own + DataCell(last.text);
      assert (carried + own) + DataCell(last.text) == carried + (own + DataCell(last.text));
    }
  }

  /** An array row resets `$cells` to its own cells. */
  lemma ArrayRowResets(before: seq<Row>, items: seq<string>)
    ensures CellsAfter(before + [Arr(items)]) == Concat(items, DataCell)
  {
    var rows := before + [Arr(items)];
    assert rows[..|rows| - 1] == before;
  }

  /** An array row with cell "a" followed by the scalar row "b": the second
      `tr` repeats the cell "a", so the rows do not render independently. */
  lemma CarryOverExample()
    ensures BodyRows([Arr(["a"]), Scalar("b")])
         == TableRow(DataCell("a")) + TableRow(DataCell("a") + DataCell("b"))
    ensures BodyRows([Arr(["a"]), Scalar("b")]) != Concat([Arr(["a"]), Scalar("b")], OwnRow)
    ensures BodyRows([Arr(["a"]), Scalar("b")]) != BodyRows([Arr(["a"])]) + BodyRows([Scalar("b")])
  {
    var first: seq<Row> := [Arr(["a"])];
    var rows := first + [Scalar("b")];
    assert rows == [Arr(["a"]), Scalar("b")];
    ArrayRowResets([], ["a"]);
    assert [] + first == first;
    ConcatCons("a", [], DataCell);
    assert CellsAfter(first) == DataCell("a");
    ScalarRowCarries(first, "b");
    assert BodyRows(first) == TableRow(DataCell("a")) by {
      assert first[..0] == [];
    }
    var single: seq<Row> := [Scalar("b")];
    assert BodyRows(single) == TableRow(DataCell("b")) by {
      assert single[..0] == [];
    }
    assert Concat(rows, OwnRow) == TableRow(DataCell("a")) + TableRow(DataCell("b")) by {
      ConcatStep(rows, 0, OwnRow);
      ConcatStep(rows, 1, OwnRow);
      assert rows[..0] == [] && rows[..2] == rows;
    }
    assert |TableRow(DataCell("a") + DataCell("b"))| != |TableRow(DataCell("b"))|;
  }

  /** The table the loop evidently means to build: each row renders on its
      own, a scalar row as a `tr` with a single `td`. */
  function TableTextIntended(headers: Arg<string>, rows: Arg<Row>, attributes: Arg<Attr>): (r: string)
    ensures r == "<table " + AttributesText(attributes) + ">"
               + (HeaderRow(headers) + Concat(Entries(rows), OwnRow)) + "</table>"
  {
    TableWrapped(HeaderRow(headers) + Concat(Entries(rows), OwnRow), attributes);
    HtmlElement("table", HeaderRow(headers) + Concat(Entries(rows), OwnRow), attributes, false)
  }

  /** In the intended table every row is one `tr` of its own cells, whatever
      rows come before or after it. */
  lemma IntendedRowAt(rows: seq<Row>, i: nat)
    requires i < |rows|
    ensures Concat(rows, OwnRow)
         == Concat(rows[..i], OwnRow) + ("<tr >" + OwnCells(rows[i]) + "</tr>") + Concat(rows[i + 1..], OwnRow)
  {
    ConcatAt(rows, i, OwnRow);
    RowLayout(OwnCells(rows[i]));
  }

  lemma IntendedRowsCompose(a: seq<Row>, b: seq<Row>)
    ensures Concat(a + b, OwnRow) == Concat(a, OwnRow) + Concat(b, OwnRow)
  {
    ConcatAppend(a, b, OwnRow);
  }

  /** The two agree whenever every row is an array. */
  lemma IntendedAgreesOnArrayRows(headers: Arg<string>, rows: seq<Row>, attributes: Arg<Attr>)
    requires forall i :: 0 <= i < |rows| ==> rows[i].Arr?
    ensures TableText(headers, Arr(rows), attributes) == TableTextIntended(headers, Arr(rows), attributes)
  {
    ArrayRowsStandAlone(rows);
  }
}
