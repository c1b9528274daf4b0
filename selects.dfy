/** html_select: one `option` element per entry of the options array. */
module Selects {
  import opened Text
  import opened Attributes
  import opened Element

  /** One entry: an `option` whose `value` attribute is the key and whose
      content is the value. */
  function OptionElement(option: Attr): string
  {
    HtmlElement("option", option.1, Arr([("value", option.0)]), false)
  }

  /** The element html_select returns. */
  function SelectText(options: Arg<Attr>, attributes: Arg<Attr>): string
  {
    HtmlElement("select", Concat(Entries(options), OptionElement), attributes, false)
  }

  /** html_select: the `foreach ($options as $key => $value)` loop. */
  method HtmlSelect(options: Arg<Attr>, attributes: Arg<Attr>) returns (r: string)
    ensures r == SelectText(options, attributes)
  {
    var concatenated := "";
    if options.Arr? {
      var entries := options.items;
      for i := 0 to |entries|
        invariant concatenated == Concat(entries[..i], OptionElement)
      {
        var (key, value) := entries[i];
        concatenated := concatenated + HtmlElement("option", value, Arr([("value", key)]), false);
        ConcatStep(entries, i, OptionElement);
      }
      assert entries[..|entries|] == entries;
    }
    r := HtmlElement("select", concatenated, attributes, false);
  }

  /** The text of one option, with its single attribute serialised. */
  lemma OptionLayout(key: string, value: string)
    ensures OptionElement((key, value)) == "<option " + Pair(("value", key)) + ">" + value + "</option>"
  {
    ConcatCons(("value", key), [], Pair);
  }

  /** Entry i becomes one option, after those of the entries before it and
      before those of the entries after it. */
  lemma OptionAt(options: seq<Attr>, i: nat)
    requires i < |options|
    ensures Concat(options, OptionElement)
         == Concat(options[..i], OptionElement)
          + ("<option " + Pair(("value", options[i].0)) + ">" + options[i].1 + "</option>")
          + Concat(options[i + 1..], OptionElement)
  {
    ConcatAt(options, i, OptionElement);
    OptionLayout(options[i].0, options[i].1);
  }

  /** A non-array options argument gives an empty `select`. */
  lemma SelectNonArray(text: string, attributes: Arg<Attr>)
    ensures SelectText(Scalar(text), attributes) == HtmlElement("select", "", attributes, false)
  {
  }
}
