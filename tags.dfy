/** The one-line wrappers that fix the tag name, the anchor wrapper that
    first assigns `href`, and the heading wrapper. */
module Tags {
  import opened Text
  import opened Attributes
  import opened Element

  function HtmlHtml(content: string, attributes: Arg<Attr>): (r: string)
    ensures r == "<html " + AttributesText(attributes) + ">" + content + "</html>"
  {
    HtmlElement("html", content, attributes, false)
  }

  function HtmlHeader(content: string, attributes: Arg<Attr>): (r: string)
    ensures r == "<header " + AttributesText(attributes) + ">" + content + "</header>"
  {
    HtmlElement("header", content, attributes, false)
  }

  function HtmlBody(content: string, attributes: Arg<Attr>): (r: string)
    ensures r == "<body " + AttributesText(attributes) + ">" + content + "</body>"
  {
    HtmlElement("body", content, attributes, false)
  }

  function HtmlFooter(content: string, attributes: Arg<Attr>): (r: string)
    ensures r == "<footer " + AttributesText(attributes) + ">" + content + "</footer>"
  {
    HtmlElement("footer", content, attributes, false)
  }

  function HtmlP(content: string, attributes: Arg<Attr>): (r: string)
    ensures r == "<p " + AttributesText(attributes) + ">" + content + "</p>"
  {
    HtmlElement("p", content, attributes, false)
  }

  function HtmlDiv(content: string, attributes: Arg<Attr>): (r: string)
    ensures r == "<div " + AttributesText(attributes) + ">" + content + "</div>"
  {
    HtmlElement("div", content, attributes, false)
  }

  function HtmlForm(content: string, attributes: Arg<Attr>): (r: string)
    ensures r == "<form " + AttributesText(attributes) + ">" + content + "</form>"
  {
    HtmlElement("form", content, attributes, false)
  }

  /** Always the self-closing form: html_input takes no content. */
  function HtmlInput(attributes: Arg<Attr>): (r: string)
    ensures r == "<input " + AttributesText(attributes) + " />"
  {
    HtmlElement("input", "", attributes, true)
  }

  /** html_a: `$attributes['href'] = $href`, then an `a` element. */
  function HtmlA(href: string, content: string, attributes: seq<Attr>): (r: string)
    requires DistinctKeys(attributes)
    ensures |r| == |AttributesText(Arr(Assign(attributes, "href", href)))| + |content| + 8
    ensures r[..3] == "<a " && r[|r| - 4..] == "</a>"
  {
    HtmlElement("a", content, Arr(Assign(attributes, "href", href)), false)
  }

  /** Without an `href` the new pair is serialised after all the others. */
  lemma AnchorAppendsHref(href: string, content: string, attributes: seq<Attr>)
    requires DistinctKeys(attributes) && !HasKey(attributes, "href")
    ensures HtmlA(href, content, attributes)
         == "<a " + AttributesText(Arr(attributes)) + Pair(("href", href)) + ">" + content + "</a>"
  {
    var kv := ("href", href);
    assert Assign(attributes, "href", href) == attributes + [kv];
    assert AttributesText(Arr(attributes + [kv])) == AttributesText(Arr(attributes)) + Pair(kv) by {
      AttributesAppend(attributes, [kv]);
      assert [kv][..0] == [];
    }
    AnchorText(href, content, attributes);
    Regroup("<a ", AttributesText(Arr(attributes)) + Pair(kv), "", "", content, "</a>");
  }

  /** With an `href` at position i, the new value is serialised in that
      place and every other pair is serialised unchanged around it. */
  lemma AnchorReplacesHref(href: string, content: string, attributes: seq<Attr>, i: nat)
    requires DistinctKeys(attributes) && i < |attributes| && attributes[i].0 == "href"
    ensures HtmlA(href, content, attributes)
         == "<a " + AttributesText(Arr(attributes[..i])) + Pair(("href", href))
          + AttributesText(Arr(attributes[i + 1..])) + ">" + content + "</a>"
  {
    var kv := ("href", href);
    AssignExisting(attributes, "href", href, i);
    ReplacedText(attributes, i, kv);
    AnchorText(href, content, attributes);
    Regroup("<a ", AttributesText(Arr(attributes[..i])), Pair(kv), AttributesText(Arr(attributes[i + 1..])),
            content, "</a>");
  }

  lemma AnchorText(href: string, content: string, attributes: seq<Attr>)
    requires DistinctKeys(attributes)
    ensures HtmlA(href, content, attributes)
         == "<a " + AttributesText(Arr(Assign(attributes, "href", href))) + (">" + content + "</a>")
  {
    AnchorLayout(content, Assign(attributes, "href", href));
  }

  lemma AnchorLayout(content: string, attributes: seq<Attr>)
    ensures HtmlElement("a", content, Arr(attributes), false)
         == "<a " + AttributesText(Arr(attributes)) + (">" + content + "</a>")
  {
  }

  /** Regrouping the pieces of an element around its attribute text. */
  lemma Regroup(open: string, before: string, pair: string, after: string, content: string, close: string)
    ensures open + (before + pair + after) + (">" + content + close)
         == open + before + pair + after + ">" + content + close
  {
  }

  /** The tag name html_heading computes at its second line and then leaves
      unused: `h` followed by the level when it lies in 1..6, else `h1`. */
  function HeadingTag(level: int): (tag: string)
    ensures |tag| == 2 && tag[0] == 'h' && '1' <= tag[1] <= '6'
    ensures 1 <= level <= 6 ==> tag == "h" + IntToDecimal(level)
    ensures !(1 <= level <= 6) ==> tag == "h1"
  {
    "h" + IntToDecimal(if 1 <= level <= 6 then level else 1)
  }

  /** html_heading as written: the element's tag is the integer level
      itself, so no level, in range or not, yields an h1..h6 element. */
  function HtmlHeading(level: int, content: string, attributes: Arg<Attr>): (r: string)
    ensures r == "<" + IntToDecimal(level) + " " + AttributesText(attributes) + ">"
               + content + "</" + IntToDecimal(level) + ">"
    ensures r[1] != 'h'
    ensures r[1] == '-' <==> level < 0
  {
    HtmlElement(IntToDecimal(level), content, attributes, false)
  }

  /** The heading the documentation describes: an h1..h6 element whose
      level is clamped to 1..6, falling back to 1. */
  function HtmlHeadingIntended(level: int, content: string, attributes: Arg<Attr>): (r: string)
    ensures |r| > 3 && r[..2] == "<h" && '1' <= r[2] <= '6' && r[3] == ' '
    ensures 1 <= level <= 6 ==> r == HtmlElement("h" + IntToDecimal(level), content, attributes, false)
    ensures !(1 <= level <= 6) ==> r == HtmlElement("h1", content, attributes, false)
  {
    HtmlElement(HeadingTag(level), content, attributes, false)
  }

  /** What level 3 and level 9 produce, against what was meant. */
  lemma HeadingIgnoresClamp()
    ensures HtmlHeading(3, "x", Arr([])) == "<3 >x</3>"
    ensures HtmlHeadingIntended(3, "x", Arr([])) == "<h3 >x</h3>"
    ensures HtmlHeading(9, "x", Arr([])) == "<9 >x</9>"
    ensures HtmlHeadingIntended(9, "x", Arr([])) == "<h1 >x</h1>"
  {
    assert IntToDecimal(3) == "3";
    assert IntToDecimal(9) == "9";
    assert IntToDecimal(1) == "1";
  }
}
