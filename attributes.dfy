/** The attribute serialiser (html_attributes) and the keyed assignment on
    an attribute array that html_a performs. */
module Attributes {
  import opened Text

  /** A PHP argument as `is_array` sees it: an array of items, or anything
      else (a string, a number, NULL), kept here as its string form. */
  datatype Arg<T> = Arr(items: seq<T>) | Scalar(text: string)

  /** The items a `foreach` guarded by `is_array` visits: none for a
      non-array argument. */
  function Entries<T>(a: Arg<T>): seq<T>
  {
    if a.Arr? then a.items else []
  }

  /** One entry of an insertion-ordered PHP array: key and value. */
  type Attr = (string, string)

  /** The text one attribute contributes: key="value" and a trailing space. */
  function Pair(attribute: Attr): string
  {
    attribute.0 + "=\"" + attribute.1 + "\" "
  }

  /** What html_attributes returns: the pairs in insertion order. */
  function AttributesText(attributes: Arg<Attr>): string
  {
    Concat(Entries(attributes), Pair)
  }

  /** html_attributes: the `foreach` loop with its string accumulator. */
  method HtmlAttributes(attributes: Arg<Attr>) returns (concatenated: string)
    ensures concatenated == AttributesText(attributes)
  {
    concatenated := "";
    if attributes.Arr? {
      var items := attributes.items;
      for i := 0 to |items|
        invariant concatenated == Concat(items[..i], Pair)
      {
        var (key, value) := items[i];
        concatenated := concatenated + key + "=\"" + value + "\" ";
        ConcatStep(items, i, Pair);
      }
      assert items[..|items|] == items;
    }
  }

  /** Length of a serialised attribute list: four characters of markup
      (`=`, two quotes and the space) around each key and value. */
  function PairsLength(attributes: seq<Attr>): nat
  {
    if attributes == [] then 0
    else
      var last := attributes[|attributes| - 1];
      PairsLength(attributes[..|attributes| - 1]) + |last.0| + |last.1| + 4
  }

  lemma {:induction false} AttributesLength(attributes: seq<Attr>)
    ensures |AttributesText(Arr(attributes))| == PairsLength(attributes)
  {
    if attributes != [] {
      AttributesLength(attributes[..|attributes| - 1]);
    }
  }

  /** A non-array argument and the empty array both serialise to "". */
  lemma AttributesEmpty(text: string)
    ensures AttributesText(Scalar(text)) == ""
    ensures AttributesText(Arr([])) == ""
  {
  }

  /** Pair i is serialised verbatim after pairs 0..i-1 and before the rest. */
  lemma AttributesInOrder(attributes: seq<Attr>, i: nat)
    requires i < |attributes|
    ensures AttributesText(Arr(attributes))
         == AttributesText(Arr(attributes[..i]))
          + attributes[i].0 + "=\"" + attributes[i].1 + "\" "
          + AttributesText(Arr(attributes[i + 1..]))
  {
    ConcatAt(attributes, i, Pair);
  }

  lemma AttributesAppend(a: seq<Attr>, b: seq<Attr>)
    ensures AttributesText(Arr(a + b)) == AttributesText(Arr(a)) + AttributesText(Arr(b))
  {
    ConcatAppend(a, b, Pair);
  }

  /** A PHP array never holds a key twice. */
  predicate DistinctKeys(attributes: seq<Attr>)
  {
    forall i, j :: 0 <= i < j < |attributes| ==> attributes[i].0 != attributes[j].0
  }

  predicate HasKey(attributes: seq<Attr>, key: string)
  {
    exists i :: 0 <= i < |attributes| && attributes[i].0 == key
  }

  /** `$attributes[key] = value`: an existing key keeps its position and
      takes the new value; a new key is appended last. */
  function Assign(attributes: seq<Attr>, key: string, value: string): (r: seq<Attr>)
    requires DistinctKeys(attributes)
    ensures DistinctKeys(r)
    ensures forall i :: 0 <= i < |attributes| && attributes[i].0 == key ==> r == attributes[i := (key, value)]
    ensures !HasKey(attributes, key) ==> r == attributes + [(key, value)]
  {
    if attributes == [] then [(key, value)]
    else if attributes[0].0 == key then [(key, value)] + attributes[1..]
    else
      var rest := Assign(attributes[1..], key, value);
      AssignShape(attributes, key, value, rest);
      [attributes[0]] + rest
  }

  /** The step Assign needs for its third case: putting the first entry back
      in front of the updated tail. */
  lemma AssignShape(attributes: seq<Attr>, key: string, value: string, rest: seq<Attr>)
    requires DistinctKeys(attributes) && attributes != [] && attributes[0].0 != key
    requires DistinctKeys(rest)
    requires forall i :: 0 <= i < |attributes| - 1 && attributes[1..][i].0 == key ==> rest == attributes[1..][i := (key, value)]
    requires !HasKey(attributes[1..], key) ==> rest == attributes[1..] + [(key, value)]
    ensures DistinctKeys([attributes[0]] + rest)
    ensures forall i :: 0 <= i < |attributes| && attributes[i].0 == key ==> [attributes[0]] + rest == attributes[i := (key, value)]
    ensures !HasKey(attributes, key) ==> [attributes[0]] + rest == attributes + [(key, value)]
  {
    var tail := attributes[1..];
    var r := [attributes[0]] + rest;
    if HasKey(tail, key) {
      var j :| 0 <= j < |tail| && tail[j].0 == key;
      assert rest == tail[j := (key, value)];
      forall i | 0 <= i < |rest| ensures rest[i].0 == tail[i].0 { }
      assert attributes[j + 1].0 == key;
      forall i | 0 <= i < |attributes| && attributes[i].0 == key
        ensures r == attributes[i := (key, value)]
      {
        assert i == j + 1;
      }
      assert HasKey(attributes, key);
    } else {
      assert rest == tail + [(key, value)];
      forall i | 0 <= i < |attributes| ensures attributes[i].0 != key {
        if i > 0 { assert tail[i - 1] == attributes[i]; }
      }
      assert r == attributes + [(key, value)];
    }
  }

  lemma AssignExisting(attributes: seq<Attr>, key: string, value: string, i: nat)
    requires DistinctKeys(attributes) && i < |attributes| && attributes[i].0 == key
    ensures Assign(attributes, key, value) == attributes[i := (key, value)]
  {
  }

  /** Replacing pair i changes the serialisation in that pair's place only. */
  lemma ReplacedText(attributes: seq<Attr>, i: nat, kv: Attr)
    requires i < |attributes|
    ensures AttributesText(Arr(attributes[i := kv]))
         == AttributesText(Arr(attributes[..i])) + Pair(kv) + AttributesText(Arr(attributes[i + 1..]))
  {
    var updated := attributes[i := kv];
    assert updated[..i] == attributes[..i];
    assert updated[i + 1..] == attributes[i + 1..];
    ConcatAt(updated, i, Pair);
  }

  /** Looking a key up, as `$attributes[key]` reads it. */
  function Lookup(attributes: seq<Attr>, key: string): Option<string>
  {
    if attributes == [] then None
    else if attributes[0].0 == key then Some(attributes[0].1)
    else Lookup(attributes[1..], key)
  }

  lemma {:induction false} LookupAt(attributes: seq<Attr>, i: nat)
    requires DistinctKeys(attributes) && i < |attributes|
    ensures Lookup(attributes, attributes[i].0) == Some(attributes[i].1)
  {
    if i > 0 {
      LookupAt(attributes[1..], i - 1);
    }
  }

  /** After the assignment the key reads back the new value and every other
      key reads back what it held before. */
  lemma AssignLookup(attributes: seq<Attr>, key: string, value: string, other: string)
    requires DistinctKeys(attributes) && other != key
    ensures Lookup(Assign(attributes, key, value), key) == Some(value)
    ensures Lookup(Assign(attributes, key, value), other) == Lookup(attributes, other)
  {
    var r := Assign(attributes, key, value);
    if HasKey(attributes, key) {
      var i :| 0 <= i < |attributes| && attributes[i].0 == key;
      assert r == attributes[i := (key, value)];
      LookupAt(r, i);
      LookupOther(attributes, i, (key, value), other);
    } else {
      assert r == attributes + [(key, value)];
      LookupAt(r, |attributes|);
      LookupAppend(attributes, (key, value), other);
    }
  }

  lemma {:induction false} LookupOther(attributes: seq<Attr>, i: nat, entry: Attr, other: string)
    requires i < |attributes| && attributes[i].0 != other && entry.0 != other
    ensures Lookup(attributes[i := entry], other) == Lookup(attributes, other)
  {
    if attributes[0].0 != other && i > 0 {
      assert attributes[i := entry][1..] == attributes[1..][i - 1 := entry];
      LookupOther(attributes[1..], i - 1, entry, other);
    }
  }

  lemma {:induction false} LookupAppend(attributes: seq<Attr>, entry: Attr, other: string)
    requires entry.0 != other
    ensures Lookup(attributes + [entry], other) == Lookup(attributes, other)
  {
    if attributes == [] {
      assert [entry][1..] == [];
    } else if attributes[0].0 != other {
      assert (attributes + [entry])[1..] == attributes[1..] + [entry];
      LookupAppend(attributes[1..], entry, other);
    }
  }
}
