/** html_list: one `li` element per item, inside `ol` or `ul`. */
module Lists {
  import opened Text
  import opened Attributes
  import opened Element

  /** One item: an `li` element without attributes. */
  function ListItem(item: string): string
  {
    HtmlElement("li", item, Arr([]), false)
  }

  /** `ol` only when `$ordered === TRUE`. */
  function ListTag(ordered: bool): string
  {
    if ordered then "ol" else "ul"
  }

  /** The element html_list returns. */
  function ListText(ordered: bool, list: Arg<string>, attributes: Arg<Attr>): string
  {
    HtmlElement(ListTag(ordered), Concat(Entries(list), ListItem), attributes, false)
  }

  /** html_list: the `foreach` over the items with its `.=` accumulator. */
  method HtmlList(ordered: bool, list: Arg<string>, attributes: Arg<Attr>) returns (r: string)
    ensures r == ListText(ordered, list, attributes)
  {
    var kind := if ordered then "ol" else "ul";
    var content := "";
    if list.Arr? {
      var items := list.items;
      for i := 0 to |items|
        invariant content == Concat(items[..i], ListItem)
      {
        content := content + HtmlElement("li", items[i], Arr([]), false);
        ConcatStep(items, i, ListItem);
      }
      assert items[..|items|] == items;
    }
    r := HtmlElement(kind, content, attributes, false);
  }

  /** The list is an `ol` exactly when ordered is true, and its attributes
      are serialised right after the tag name and a space. */
  lemma ListKind(ordered: bool, list: Arg<string>, attributes: Arg<Attr>)
    ensures ordered ==> ListText(ordered, list, attributes)[..4] == "<ol "
    ensures !ordered ==> ListText(ordered, list, attributes)[..4] == "<ul "
    ensures ListText(ordered, list, attributes)[4..4 + |AttributesText(attributes)|] == AttributesText(attributes)
  {
    ElementOpening(ListTag(ordered), Concat(Entries(list), ListItem), attributes, false);
  }

  /** Item i is one `li` element holding exactly that item, preceded by the
      elements of the items before it and followed by those after it. */
  lemma ListItemAt(items: seq<string>, i: nat)
    requires i < |items|
    ensures Concat(items, ListItem)
         == Concat(items[..i], ListItem) + ("<li >" + items[i] + "</li>") + Concat(items[i + 1..], ListItem)
  {
    ConcatAt(items, i, ListItem);
    ItemLayout(items[i]);
  }

  lemma ItemLayout(item: string)
    ensures ListItem(item) == "<li >" + item + "</li>"
  {
    assert AttributesText(Arr([])) == "";
  }

  /** Items of two lists given one after the other give their elements one
      after the other. */
  lemma ListItemsAppend(a: seq<string>, b: seq<string>)
    ensures Concat(a + b, ListItem) == Concat(a, ListItem) + Concat(b, ListItem)
  {
    ConcatAppend(a, b, ListItem);
  }

  /** A non-array list gives an empty `ol` or `ul`. */
  lemma ListNonArray(ordered: bool, text: string, attributes: Arg<Attr>)
    ensures ListText(ordered, Scalar(text), attributes) == HtmlElement(ListTag(ordered), "", attributes, false)
  {
  }

  /** The example of the documentation block: an unordered list of three
      colours. */
  lemma ListExample()
    ensures ListText(false, Arr(["red", "green", "blue"]), Arr([]))
         == "<ul >" + "<li >red</li>" + "<li >green</li>" + "<li >blue</li>" + "</ul>"
  {
    var content := "<li >red</li>" + "<li >green</li>" + "<li >blue</li>";
    ExampleItems();
    assert AttributesText(Arr([])) == "";
    assert HtmlElement("ul", content, Arr([]), false) == "<ul >" + content + "</ul>";
  }

  lemma ExampleItems()
    ensures Concat(["red", "green", "blue"], ListItem) == "<li >red</li>" + "<li >green</li>" + "<li >blue</li>"
  {
    var items := ["red", "green", "blue"];
    assert ListItem("red") == "<li >red</li>";
    assert ListItem("green") == "<li >green</li>";
    assert ListItem("blue") == "<li >blue</li>";
    ConcatStep(items, 0, ListItem);
    ConcatStep(items, 1, ListItem);
    ConcatStep(items, 2, ListItem);
    assert items[..0] == [] && items[..3] == items;
  }
}
