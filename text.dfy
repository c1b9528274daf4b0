/** Sequence and string helpers shared by the generator and by its inverse:
    the ordered fold behind every `.=` accumulator, splitting a string at a
    character, and the decimal rendering PHP uses when an integer is
    interpolated into a string. */
module Text {

  datatype Option<T> = None | Some(value: T)

  /** The in-order concatenation of render(x) for every x in items.  Defined
      on the last element, which is how a `foreach` loop with `.=` builds it. */
  function Concat<T>(items: seq<T>, render: T -> string): string
  {
    if items == [] then "" else Concat(items[..|items| - 1], render) + render(items[|items| - 1])
  }

  /** One more loop iteration appends one more rendered item. */
  lemma ConcatStep<T>(items: seq<T>, i: nat, render: T -> string)
    requires i < |items|
    ensures Concat(items[..i + 1], render) == Concat(items[..i], render) + render(items[i])
  {
    assert items[..i + 1][..i] == items[..i];
  }

  lemma {:induction false} ConcatAppend<T>(a: seq<T>, b: seq<T>, render: T -> string)
    ensures Concat(a + b, render) == Concat(a, render) + Concat(b, render)
    decreases |b|
  {
    if b == [] {
      assert a + b == a;
    } else {
      var b' := b[..|b| - 1];
      assert (a + b)[..|a + b| - 1] == a + b';
      assert (a + b)[|a + b| - 1] == b[|b| - 1];
      ConcatAppend(a, b', render);
    }
  }

  lemma ConcatCons<T>(x: T, rest: seq<T>, render: T -> string)
    ensures Concat([x] + rest, render) == render(x) + Concat(rest, render)
  {
    ConcatAppend([x], rest, render);
    assert [x][..0] == [];
  }

  /** Item i is rendered after every earlier item and before every later one. */
  lemma ConcatAt<T>(items: seq<T>, i: nat, render: T -> string)
    requires i < |items|
    ensures Concat(items, render)
         == Concat(items[..i], render) + render(items[i]) + Concat(items[i + 1..], render)
  {
    var before, after := items[..i], items[i + 1..];
    assert items == before + ([items[i]] + after);
    ConcatAppend(before, [items[i]] + after, render);
    ConcatCons(items[i], after, render);
  }

  /** The text before the first c and the text after it, or None when s
      holds no c. */
  function Split(s: string, c: char): (r: Option<(string, string)>)
    ensures r.None? ==> c !in s
    ensures r.Some? ==> c !in r.value.0 && s == r.value.0 + [c] + r.value.1
  {
    if s == [] then None
    else if s[0] == c then Some(([], s[1..]))
    else match Split(s[1..], c)
      case None => None
      case Some((before, after)) => Some(([s[0]] + before, after))
  }

  lemma {:induction false} SplitAt(before: string, c: char, after: string)
    requires c !in before
    ensures Split(before + [c] + after, c) == Some((before, after))
  {
    var s := before + [c] + after;
    if before != [] {
      assert s[0] == before[0] && s[1..] == before[1..] + [c] + after;
      SplitAt(before[1..], c, after);
      assert [before[0]] + before[1..] == before;
    } else {
      assert s[1..] == after;
    }
  }

  function Digit(d: nat): (c: char)
    requires d < 10
  {
    ('0' as int + d) as char
  }

  predicate IsDigits(s: string)
  {
    forall i :: 0 <= i < |s| ==> '0' <= s[i] <= '9'
  }

  /** Decimal digits of n, most significant first, with no leading zero. */
  function NatToDecimal(n: nat): (s: string)
    ensures |s| > 0 && IsDigits(s)
    ensures s[0] == '0' <==> n == 0
  {
    if n < 10 then [Digit(n)] else NatToDecimal(n / 10) + [Digit(n % 10)]
  }

  /** PHP's rendering of an integer inside a string: a minus sign for a
      negative value, then the decimal digits of its magnitude. */
  function IntToDecimal(i: int): (s: string)
    ensures |s| > 0
    ensures s[0] == '-' <==> i < 0
    ensures i >= 0 ==> IsDigits(s)
    ensures i < 0 ==> IsDigits(s[1..])
    ensures i == 0 ==> s == "0"
    ensures i > 0 ==> s[0] != '0'
    ensures i < 0 ==> |s| > 1 && s[1] != '0'
  {
    if i < 0 then "-" + NatToDecimal(-i) else NatToDecimal(i)
  }

  /** The number a string of decimal digits denotes. */
  function DecimalValue(s: string): nat
    requires IsDigits(s)
  {
    if s == [] then 0
    else DecimalValue(s[..|s| - 1]) * 10 + (s[|s| - 1] as int - '0' as int)
  }

  /** The integer a rendering denotes: the inverse of IntToDecimal. */
  function ParseDecimal(s: string): int
    requires (|s| > 0 && s[0] == '-' && IsDigits(s[1..])) || IsDigits(s)
  {
    if |s| > 0 && s[0] == '-' then -(DecimalValue(s[1..]) as int) else DecimalValue(s)
  }

  lemma {:induction false} NatToDecimalValue(n: nat)
    ensures DecimalValue(NatToDecimal(n)) == n
  {
    var s := NatToDecimal(n);
    if n >= 10 {
      NatToDecimalValue(n / 10);
      assert s[..|s| - 1] == NatToDecimal(n / 10);
    }
  }

  lemma IntToDecimalRoundTrip(i: int)
    ensures ParseDecimal(IntToDecimal(i)) == i
  {
    if i < 0 {
      NatToDecimalValue(-i);
      assert IntToDecimal(i)[1..] == NatToDecimal(-i);
    } else {
      NatToDecimalValue(i);
    }
  }
}
