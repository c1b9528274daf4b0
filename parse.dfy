/** A reader for the markup the generator writes.  It is not part of the
    generator: it is the inverse against which the builder is proved
    lossless.  Because nothing is escaped, the round trip holds only for
    tags without a space, keys without `=` (and not starting with `>` or a
    space) and values without `"`; a quote inside a value breaks it. */
module Parse {
  import opened Text
  import opened Attributes
  import opened Element
  import opened Tags

  /** What an element consists of: tag, attributes, content, self-closing. */
  datatype Descriptor = Descriptor(tag: string, attributes: seq<Attr>, content: string, empty: bool)

  predicate TagOk(tag: string)
  {
    ' ' !in tag
  }

  predicate KeyOk(key: string)
  {
    '=' !in key && (key != [] ==> key[0] != '>' && key[0] != ' ')
  }

  predicate ValueOk(value: string)
  {
    '"' !in value
  }

  predicate AttributesOk(attributes: seq<Attr>)
  {
    forall i :: 0 <= i < |attributes| ==> KeyOk(attributes[i].0) && ValueOk(attributes[i].1)
  }

  /** Reads `key="value" ` pairs up to a `>` or a space, and returns them
      with the text that follows them. */
  function ParseAttributes(s: string): Option<(seq<Attr>, string)>
    decreases |s|
  {
    if s == [] then None
    else if s[0] == '>' || s[0] == ' ' then Some(([], s))
    else match Split(s, '=')
      case None => None
      case Some((key, afterKey)) =>
        if afterKey == [] || afterKey[0] != '"' then None
        else match Split(afterKey[1..], '"')
          case None => None
          case Some((value, afterValue)) =>
            if afterValue == [] || afterValue[0] != ' ' then None
            else match ParseAttributes(afterValue[1..])
              case None => None
              case Some((more, rest)) => Some(([(key, value)] + more, rest))
  }

  /** Reads one whole element. */
  function ParseElement(s: string): Option<Descriptor>
  {
    if s == [] || s[0] != '<' then None
    else match Split(s[1..], ' ')
      case None => None
      case Some((tag, afterTag)) =>
        match ParseAttributes(afterTag)
          case None => None
          case Some((attributes, rest)) => ParseEnd(tag, attributes, rest)
  }

  /** Reads what follows the attributes: ` />`, or `>`, the content and the
      closing tag. */
  function ParseEnd(tag: string, attributes: seq<Attr>, rest: string): Option<Descriptor>
  {
    var close := "</" + tag + ">";
    if rest == " />" then Some(Descriptor(tag, attributes, "", true))
    else if |rest| >= |close| + 1 && rest[0] == '>' && rest[|rest| - |close|..] == close
    then Some(Descriptor(tag, attributes, rest[1..|rest| - |close|], false))
    else None
  }

  /** What the builder writes after the attributes. */
  function ElementEnd(tag: string, content: string, empty: bool): string
  {
    if empty then " />" else ">" + content + "</" + tag + ">"
  }

  lemma ElementSplit(tag: string, content: string, attributes: Arg<Attr>, empty: bool)
    ensures HtmlElement(tag, content, attributes, empty)
         == "<" + (tag + [' '] + (AttributesText(attributes) + ElementEnd(tag, content, empty)))
  {
    var open, text := "<" + tag + " ", AttributesText(attributes);
    var s := HtmlElement(tag, content, attributes, empty);
    if empty {
      assert s == open + text + " />";
    } else {
      Regroup3(open + text, ">", content, "</" + tag + ">");
      assert s == open + text + (">" + content + ("</" + tag + ">"));
    }
    Reassociate("<", tag, text, ElementEnd(tag, content, empty));
  }

  lemma Regroup3(prefix: string, a: string, b: string, c: string)
    ensures prefix + a + b + c == prefix + (a + b + c)
  {
  }

  lemma Reassociate(open: string, tag: string, text: string, tail: string)
    ensures open + tag + " " + text + tail == open + (tag + [' '] + (text + tail))
  {
  }

  /** A well-formed tag name is read up to the space that follows it. */
  lemma OpeningRead(tag: string, following: string)
    requires TagOk(tag)
    ensures ParseElement("<" + (tag + [' '] + following))
         == match ParseAttributes(following)
            case None => None
            case Some((attributes, rest)) => ParseEnd(tag, attributes, rest)
  {
    var s := "<" + (tag + [' '] + following);
    assert s[1..] == tag + [' '] + following;
    SplitAt(tag, ' ', following);
  }

  lemma EndRead(tag: string, attributes: seq<Attr>, content: string, empty: bool)
    ensures ParseEnd(tag, attributes, ElementEnd(tag, content, empty))
         == Some(Descriptor(tag, attributes, if empty then "" else content, empty))
  {
    if !empty {
      var close := "</" + tag + ">";
      var rest := ">" + content + close;
      assert ElementEnd(tag, content, empty) == rest;
      assert rest[0] == '>' && rest != " />";
      assert rest[|rest| - |close|..] == close;
      assert rest[1..|rest| - |close|] == content;
    }
  }

  /** One well-formed pair is read, and reading goes on after it. */
  lemma PairRead(key: string, value: string, following: string)
    requires KeyOk(key) && ValueOk(value)
    ensures ParseAttributes(Pair((key, value)) + following)
         == match ParseAttributes(following)
            case None => None
            case Some((more, rest)) => Some(([(key, value)] + more, rest))
  {
    var s := Pair((key, value)) + following;
    var afterValue := " " + following;
    var afterKey := "\"" + value + "\" " + following;
    assert s == key + ['='] + afterKey;
    assert s[0] != '>' && s[0] != ' ';
    SplitAt(key, '=', afterKey);
    assert afterKey != [] && afterKey[0] == '"';
    assert afterKey[1..] == value + ['"'] + afterValue;
    SplitAt(value, '"', afterValue);
    assert afterValue != [] && afterValue[0] == ' ';
    assert afterValue[1..] == following;
  }

  /** The serialised pairs read back as the same pairs, in the same order. */
  lemma {:induction false} AttributesRoundTrip(attributes: seq<Attr>, rest: string)
    requires AttributesOk(attributes)
    requires rest != [] && (rest[0] == '>' || rest[0] == ' ')
    ensures ParseAttributes(AttributesText(Arr(attributes)) + rest) == Some((attributes, rest))
  {
    if attributes == [] {
      assert AttributesText(Arr(attributes)) + rest == rest;
    } else {
      var kv, tail := attributes[0], attributes[1..];
      assert AttributesOk(tail) by {
        forall i | 0 <= i < |tail| ensures KeyOk(tail[i].0) && ValueOk(tail[i].1) {
          assert tail[i] == attributes[i + 1];
        }
      }
      var following := AttributesText(Arr(tail)) + rest;
      assert AttributesText(Arr(attributes)) + rest == Pair(kv) + following by {
        assert attributes == [kv] + tail;
        ConcatCons(kv, tail, Pair);
      }
      AttributesRoundTrip(tail, rest);
      PairRead(kv.0, kv.1, following);
      assert [kv] + tail == attributes;
    }
  }

  /** The builder loses nothing: the element reads back as its tag, its
      attribute pairs, its content (none when self-closing) and its form. */
  lemma ElementRoundTrip(tag: string, content: string, attributes: Arg<Attr>, empty: bool)
    requires TagOk(tag) && AttributesOk(Entries(attributes))
    ensures ParseElement(HtmlElement(tag, content, attributes, empty))
         == Some(Descriptor(tag, Entries(attributes), if empty then "" else content, empty))
  {
    var rest := ElementEnd(tag, content, empty);
    ElementSplit(tag, content, attributes, empty);
    OpeningRead(tag, AttributesText(attributes) + rest);
    assert AttributesText(Arr(Entries(attributes))) == AttributesText(attributes);
    AttributesRoundTrip(Entries(attributes), rest);
    EndRead(tag, Entries(attributes), content, empty);
  }

  /** Two builds that give the same text had the same tag, attribute pairs,
      form and, unless self-closing, the same content. */
  lemma ElementInjective(tag1: string, content1: string, attributes1: Arg<Attr>, empty1: bool,
                         tag2: string, content2: string, attributes2: Arg<Attr>, empty2: bool)
    requires TagOk(tag1) && AttributesOk(Entries(attributes1))
    requires TagOk(tag2) && AttributesOk(Entries(attributes2))
    requires HtmlElement(tag1, content1, attributes1, empty1) == HtmlElement(tag2, content2, attributes2, empty2)
    ensures tag1 == tag2 && Entries(attributes1) == Entries(attributes2) && empty1 == empty2
    ensures !empty1 ==> content1 == content2
  {
    ElementRoundTrip(tag1, content1, attributes1, empty1);
    ElementRoundTrip(tag2, content2, attributes2, empty2);
  }

  /** Each fixed-tag wrapper builds an element of its own tag holding the
      given content and attributes; html_input a self-closing one. */
  lemma WrappersRoundTrip(content: string, attributes: Arg<Attr>)
    requires AttributesOk(Entries(attributes))
    ensures ParseElement(HtmlHtml(content, attributes)) == Some(Descriptor("html", Entries(attributes), content, false))
    ensures ParseElement(HtmlHeader(content, attributes)) == Some(Descriptor("header", Entries(attributes), content, false))
    ensures ParseElement(HtmlBody(content, attributes)) == Some(Descriptor("body", Entries(attributes), content, false))
    ensures ParseElement(HtmlFooter(content, attributes)) == Some(Descriptor("footer", Entries(attributes), content, false))
    ensures ParseElement(HtmlP(content, attributes)) == Some(Descriptor("p", Entries(attributes), content, false))
    ensures ParseElement(HtmlDiv(content, attributes)) == Some(Descriptor("div", Entries(attributes), content, false))
    ensures ParseElement(HtmlForm(content, attributes)) == Some(Descriptor("form", Entries(attributes), content, false))
    ensures ParseElement(HtmlInput(attributes)) == Some(Descriptor("input", Entries(attributes), "", true))
  {
    ElementRoundTrip("html", content, attributes, false);
    ElementRoundTrip("header", content, attributes, false);
    ElementRoundTrip("body", content, attributes, false);
    ElementRoundTrip("footer", content, attributes, false);
    ElementRoundTrip("p", content, attributes, false);
    ElementRoundTrip("div", content, attributes, false);
    ElementRoundTrip("form", content, attributes, false);
    ElementRoundTrip("input", "", attributes, true);
  }

  /** A pair whose value holds a quote that is followed by anything but a
      space, or that ends the value, does not read back as a pair. */
  lemma QuotedPairUnreadable(key: string, before: string, after: string, following: string)
    requires KeyOk(key) && '"' !in before && (after == [] || after[0] != ' ')
    ensures ParseAttributes(Pair((key, before + "\"" + after)) + following) == None
  {
    var s := Pair((key, before + "\"" + after)) + following;
    var afterKey := "\"" + before + "\"" + after + "\" " + following;
    assert s == key + ['='] + afterKey;
    assert s[0] != '>' && s[0] != ' ';
    SplitAt(key, '=', afterKey);
    var afterValue := after + "\" " + following;
    assert afterKey[1..] == before + ['"'] + afterValue;
    SplitAt(before, '"', afterValue);
    assert afterValue[0] == (if after == [] then '"' else after[0]);
  }

  /** Well-formed pairs in front of unreadable text do not make it readable. */
  lemma {:induction false} UnreadableAfterPairs(good: seq<Attr>, following: string)
    requires AttributesOk(good) && ParseAttributes(following) == None
    ensures ParseAttributes(AttributesText(Arr(good)) + following) == None
  {
    if good == [] {
      assert AttributesText(Arr(good)) + following == following;
    } else {
      var kv, tail := good[0], good[1..];
      assert AttributesOk(tail) by {
        forall i | 0 <= i < |tail| ensures KeyOk(tail[i].0) && ValueOk(tail[i].1) {
          assert tail[i] == good[i + 1];
        }
      }
      assert good == [kv] + tail;
      FirstPairText(kv, tail, following);
      UnreadableAfterPairs(tail, following);
      PairRead(kv.0, kv.1, AttributesText(Arr(tail)) + following);
    }
  }

  /** The attribute text of good pairs, one pair kv, and more pairs. */
  lemma MiddlePairText(good: seq<Attr>, kv: Attr, more: seq<Attr>, rest: string)
    ensures AttributesText(Arr(good + [kv] + more)) + rest
         == AttributesText(Arr(good)) + (Pair(kv) + (AttributesText(Arr(more)) + rest))
  {
    assert good + [kv] + more == good + ([kv] + more);
    ConcatAppend(good, [kv] + more, Pair);
    FirstPairText(kv, more, rest);
  }

  /** No escaping: a quote inside a value, followed by anything but a space
      or ending the value, ends the attribute early, and the element no
      longer reads back at all, whichever attribute holds that value. */
  lemma QuoteInValueBreaksMarkup(tag: string, content: string, good: seq<Attr>, key: string,
                                 before: string, after: string, more: seq<Attr>, empty: bool)
    requires TagOk(tag) && AttributesOk(good) && KeyOk(key) && '"' !in before
    requires after == [] || after[0] != ' '
    ensures ParseElement(HtmlElement(tag, content, Arr(good + [(key, before + "\"" + after)] + more), empty)) == None
  {
    var kv := (key, before + "\"" + after);
    var attributes := good + [kv] + more;
    var tailText := AttributesText(Arr(more));
    var rest := ElementEnd(tag, content, empty);
    MiddlePairText(good, kv, more, rest);
    ElementSplit(tag, content, Arr(attributes), empty);
    OpeningRead(tag, AttributesText(Arr(attributes)) + rest);
    QuotedPairUnreadable(key, before, after, tailText + rest);
    UnreadableAfterPairs(good, Pair(kv) + (tailText + rest));
  }

  /** A value holding `" ` is read as the end of its pair: `a="x" b="y"`
      on a paragraph is the same text whether it came from one attribute
      whose value holds a quote or from two separate attributes. */
  lemma QuoteInjectsAttribute()
    ensures HtmlElement("p", "", Arr([("a", "x\" b=\"y")]), false)
         == HtmlElement("p", "", Arr([("a", "x"), ("b", "y")]), false)
    ensures ParseElement(HtmlElement("p", "", Arr([("a", "x\" b=\"y")]), false))
         == Some(Descriptor("p", [("a", "x"), ("b", "y")], "", false))
  {
    ConcatCons(("a", "x\" b=\"y"), [], Pair);
    ConcatCons(("a", "x"), [("b", "y")], Pair);
    ConcatCons(("b", "y"), [], Pair);
    assert AttributesText(Arr([("a", "x\" b=\"y")])) == AttributesText(Arr([("a", "x"), ("b", "y")]));
    assert AttributesOk([("a", "x"), ("b", "y")]);
    ElementRoundTrip("p", "", Arr([("a", "x"), ("b", "y")]), false);
  }

  lemma FirstPairText(kv: Attr, more: seq<Attr>, rest: string)
    ensures AttributesText(Arr([kv] + more)) + rest == Pair(kv) + (AttributesText(Arr(more)) + rest)
  {
    ConcatCons(kv, more, Pair);
  }

  /** The smallest case: `title="a"b"` on a paragraph. */
  lemma QuoteExample()
    ensures ParseElement(HtmlElement("p", "", Arr([("title", "a\"b")]), false)) == None
  {
    assert "a" + "\"" + "b" == "a\"b";
    var none: seq<Attr> := [];
    assert none + [("title", "a\"b")] + none == [("title", "a\"b")];
    QuoteInValueBreaksMarkup("p", "", none, "title", "a", "b", none, false);
  }
}
