/** The element builder, html_element: a tag, its serialised attributes and
    its content, or the self-closing form that has no content. */
module Element {
  import opened Attributes

  /** html_element.  `empty` stands for the source's `$empty === TRUE`. */
  function HtmlElement(tag: string, content: string, attributes: Arg<Attr>, empty: bool): string
  {
    var concatenated := AttributesText(attributes);
    if empty then "<" + tag + " " + concatenated + " />"
    else "<" + tag + " " + concatenated + ">" + content + "</" + tag + ">"
  }

  /** The two layouts, stated through the attribute pairs themselves: the
      opening tag is followed by a space even when there are no attributes,
      and the self-closing form drops the content. */
  lemma ElementLayout(tag: string, content: string, attributes: seq<Attr>)
    ensures |HtmlElement(tag, content, Arr(attributes), false)|
         == 2 * |tag| + PairsLength(attributes) + |content| + 6
    ensures |HtmlElement(tag, content, Arr(attributes), true)|
         == |tag| + PairsLength(attributes) + 5
    ensures HtmlElement(tag, content, Arr(attributes), false)[..|tag| + 2] == "<" + tag + " "
    ensures HtmlElement(tag, content, Arr(attributes), true)[..|tag| + 2] == "<" + tag + " "
    ensures attributes == [] ==>
      HtmlElement(tag, content, Arr(attributes), false) == "<" + tag + " >" + content + "</" + tag + ">"
    ensures attributes == [] ==>
      HtmlElement(tag, content, Arr(attributes), true) == "<" + tag + "  />"
  {
    AttributesLength(attributes);
  }

  /** Every element opens with `<`, the tag, a space and the serialised
      attributes. */
  lemma ElementOpening(tag: string, content: string, attributes: Arg<Attr>, empty: bool)
    ensures |HtmlElement(tag, content, attributes, empty)| >= |tag| + 2 + |AttributesText(attributes)|
    ensures HtmlElement(tag, content, attributes, empty)[..|tag| + 2] == "<" + tag + " "
    ensures HtmlElement(tag, content, attributes, empty)[|tag| + 2..|tag| + 2 + |AttributesText(attributes)|]
         == AttributesText(attributes)
  {
    var open, text := "<" + tag + " ", AttributesText(attributes);
    var rest := if empty then " />" else ">" + content + "</" + tag + ">";
    var s := HtmlElement(tag, content, attributes, empty);
    assert s == open + (text + rest);
    assert s[..|open|] == open;
    assert s[|open|..|open| + |text|] == text;
  }

  /** A non-array attribute argument builds the same element as no attributes. */
  lemma ElementNonArrayAttributes(tag: string, content: string, text: string, empty: bool)
    ensures HtmlElement(tag, content, Scalar(text), empty) == HtmlElement(tag, content, Arr([]), empty)
  {
  }

  /** With `$empty === TRUE` the content never reaches the output. */
  lemma SelfClosingIgnoresContent(tag: string, c1: string, c2: string, attributes: Arg<Attr>)
    ensures HtmlElement(tag, c1, attributes, true) == HtmlElement(tag, c2, attributes, true)
  {
  }

  lemma ElementExamples()
    ensures HtmlElement("div", "", Arr([]), false) == "<div ></div>"
    ensures HtmlElement("input", "", Arr([("type", "text")]), true) == "<input type=\"text\"  />"
  {
    assert Text.Concat([("type", "text")], Pair) == "type=\"text\" " by {
      Text.ConcatCons(("type", "text"), [], Pair);
    }
  }
}
