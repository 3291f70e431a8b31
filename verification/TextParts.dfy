/** Cutting text at ASCII characters. */
module TextParts {
  import opened Errors
  import opened Bytes
  import opened Bignum

  /** The first position of `c`, or the length. */
  function IndexOf(s: Text, c: u8): (i: nat)
    ensures i <= |s| && (i < |s| ==> s[i] == c) && c !in s[..i]
  {
    if s == [] || s[0] == c then 0
    else
      var i := 1 + IndexOf(s[1..], c);
      assert s[..i] == [s[0]] + s[1..][..i - 1];
      i
  }

  lemma {:induction false} IndexOfAt(a: Text, c: u8, b: Text)
    requires c !in a
    ensures IndexOf(a + [c] + b, c) == |a|
  {
    if a != [] {
      assert a[0] in a;
      IndexOfAt(a[1..], c, b);
      assert (a + [c] + b)[1..] == a[1..] + [c] + b;
    }
  }

  lemma IndexOfNone(s: Text, c: u8)
    requires c !in s
    ensures IndexOf(s, c) == |s|
  {
  }

  /** The parts before and after the first `c`. */
  function SplitOnce(s: Text, c: u8): Option<(Text, Text)> {
    var i := IndexOf(s, c);
    if i == |s| then None else Some((s[..i], s[i + 1..]))
  }

  lemma SplitOnceAt(a: Text, c: u8, b: Text)
    requires c !in a
    ensures SplitOnce(a + [c] + b, c) == Some((a, b))
  {
    IndexOfAt(a, c, b);
    assert (a + [c] + b)[..|a|] == a && (a + [c] + b)[|a| + 1..] == b;
  }

  /** All the parts between the `c`s. */
  function Split(s: Text, c: u8): seq<Text> {
    var i := IndexOf(s, c);
    if i == |s| then [s] else [s[..i]] + Split(s[i + 1..], c)
  }

  lemma SplitAt(a: Text, c: u8, b: Text)
    requires c !in a
    ensures Split(a + [c] + b, c) == [a] + Split(b, c)
  {
    IndexOfAt(a, c, b);
    assert (a + [c] + b)[..|a|] == a && (a + [c] + b)[|a| + 1..] == b;
  }

  /** The parts before and after the last `c`. */
  function SplitLast(s: Text, c: u8): Option<(Text, Text)> {
    if s == [] then None
    else
      var n := |s| - 1;
      if s[n] == c then Some((s[..n], []))
      else
        match SplitLast(s[..n], c)
        case None => None
        case Some((a, b)) => Some((a, b + [s[n]]))
  }

  lemma {:induction false} SplitLastAt(a: Text, c: u8, b: Text)
    requires c !in b
    ensures SplitLast(a + [c] + b, c) == Some((a, b))
  {
    var s := a + [c] + b;
    if b == [] {
      assert s[..|s| - 1] == a;
    } else {
      var n := |b| - 1;
      SplitLastAt(a, c, b[..n]);
      assert s[..|s| - 1] == a + [c] + b[..n];
      assert b[..n] + [b[n]] == b;
    }
  }

  /** Exactly `width` ASCII digits. */
  function ParseFixed(s: Text, width: nat): (r: Option<nat>) {
    if |s| != width || !AllDigits(s) then None else Some(Val(DigitsOf(s)))
  }

  method ParseFixedLoop(s: Text, width: nat) returns (r: Option<nat>)
    ensures r == ParseFixed(s, width)
  {
    if |s| != width || !AllDigits(s) {
      return None;
    }
    var v: nat := 0;
    for i := 0 to |s|
      invariant v == Val(DigitsOf(s)[..i])
    {
      assert DigitsOf(s)[..i + 1] == DigitsOf(s)[..i] + [s[i] - 48];
      ValLast(DigitsOf(s)[..i], s[i] - 48);
      var d: nat := DigitsOf(s)[i];
      v := v * 10 + d;
    }
    assert DigitsOf(s)[..|s|] == DigitsOf(s);
    return Some(v);
  }

  /** Two digits. */
  function Push2(v: nat): (s: Text)
    requires v < 100
    ensures |s| == 2 && AllDigits(s)
  {
    [DigitByte(v / 10), DigitByte(v % 10)]
  }

  lemma Push2RoundTrip(v: nat)
    requires v < 100
    ensures ParseFixed(Push2(v), 2) == Some(v)
  {
    var ds := DigitsOf(Push2(v));
    assert ds == [v / 10, v % 10];
    assert ds[..1] == [v / 10] && ds[..1][..0] == [];
    assert Val(ds[..1]) == v / 10;
  }

  // ---- fractions ---------------------------------------------------------------------

  /** Trailing zeros dropped. */
  function TrimFrac(f: seq<Digit>): (r: seq<Digit>)
    ensures CanonicalFrac(r)
  {
    if f != [] && f[|f| - 1] == 0 then TrimFrac(f[..|f| - 1]) else f
  }

  predicate CanonicalFrac(f: seq<Digit>) {
    f == [] || f[|f| - 1] != 0
  }

  method TrimFracLoop(f: seq<Digit>) returns (r: seq<Digit>)
    ensures r == TrimFrac(f)
  {
    r := f;
    while r != [] && r[|r| - 1] == 0
      invariant TrimFrac(r) == TrimFrac(f)
    {
      r := r[..|r| - 1];
    }
  }

  /** The fraction a digit string denotes after the point. */
  ghost function FracVal(f: seq<Digit>): (v: real)
    ensures 0.0 <= v < 1.0
  {
    if f == [] then 0.0 else (f[0] as real + FracVal(f[1..])) / 10.0
  }

  lemma {:induction false} TrimKeepsValue(f: seq<Digit>)
    ensures FracVal(TrimFrac(f)) == FracVal(f)
  {
    if f != [] && f[|f| - 1] == 0 {
      TrimKeepsValue(f[..|f| - 1]);
      TrailingZero(f);
    }
  }

  lemma {:induction false} TrailingZero(f: seq<Digit>)
    requires f != [] && f[|f| - 1] == 0
    ensures FracVal(f) == FracVal(f[..|f| - 1])
  {
    if |f| > 1 {
      TrailingZero(f[1..]);
      assert f[1..][..|f| - 2] == f[..|f| - 1][1..];
    }
  }

  function CompareReal(a: real, b: real): Ordering {
    if a < b then Less else if a > b then Greater else Equal
  }

  /** Digit by digit, the shorter one padded with zeros. */
  function CompareFrac(a: seq<Digit>, b: seq<Digit>): Ordering
    decreases |a| + |b|
  {
    if a == [] && b == [] then Equal
    else
      var x := if a == [] then 0 else a[0];
      var y := if b == [] then 0 else b[0];
      CompareInt(x, y).Then(CompareFrac(if a == [] then a else a[1..], if b == [] then b else b[1..]))
  }

  function DigitAt(f: seq<Digit>, i: nat): Digit {
    if i < |f| then f[i] else 0
  }

  method CompareFracLoop(a: seq<Digit>, b: seq<Digit>) returns (r: Ordering)
    ensures r == CompareFrac(a, b)
  {
    var n := if |a| > |b| then |a| else |b|;
    for i := 0 to n
      invariant CompareFrac(a, b) == CompareFrac(Drop(a, i), Drop(b, i))
    {
      var c := CompareInt(DigitAt(a, i), DigitAt(b, i));
      if c != Equal {
        return c;
      }
    }
    return Equal;
  }

  ghost function Drop(f: seq<Digit>, i: nat): seq<Digit> {
    if i < |f| then f[i..] else []
  }

  /** `cmp_frac` orders by the fractions denoted. */
  lemma {:induction false} FracOrder(a: seq<Digit>, b: seq<Digit>)
    ensures CompareFrac(a, b) == CompareReal(FracVal(a), FracVal(b))
    decreases |a| + |b|
  {
    if a != [] || b != [] {
      var s, t := if a == [] then a else a[1..], if b == [] then b else b[1..];
      FracOrder(s, t);
      var x := if a == [] then 0 else a[0];
      var y := if b == [] then 0 else b[0];
      assert FracVal(a) == (x as real + FracVal(s)) / 10.0;
      assert FracVal(b) == (y as real + FracVal(t)) / 10.0;
      if x < y {
        assert x as real + 1.0 <= y as real;
      } else if y < x {
        assert y as real + 1.0 <= x as real;
      }
    }
  }

  lemma {:induction false} FracZero(f: seq<Digit>)
    requires CanonicalFrac(f) && FracVal(f) == 0.0
    ensures f == []
  {
    if f != [] {
      if |f| > 1 {
        FracZero(f[1..]);
      }
    }
  }

  /** Canonical fractions that denote the same number are the same. */
  lemma {:induction false} FracInjective(a: seq<Digit>, b: seq<Digit>)
    requires CanonicalFrac(a) && CanonicalFrac(b) && FracVal(a) == FracVal(b)
    ensures a == b
  {
    if a == [] {
      FracZero(b);
    } else if b == [] {
      FracZero(a);
    } else {
      FracOrder(a, b);
      assert a[0] == b[0];
      assert CanonicalFrac(a[1..]) && CanonicalFrac(b[1..]);
      FracInjective(a[1..], b[1..]);
      assert a == [a[0]] + a[1..] && b == [b[0]] + b[1..];
    }
  }
}
