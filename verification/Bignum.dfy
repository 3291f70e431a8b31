/** Unlimited-magnitude integers kept as decimal digits. */
module Bignum {
  import opened Errors
  import opened Bytes

  type Digit = d: int | 0 <= d <= 9
  /** Text is its UTF-8 bytes. */
  type Text = seq<u8>

  datatype Ordering = Less | Equal | Greater {
    function Reverse(): Ordering {
      match this
      case Less => Greater
      case Equal => Equal
      case Greater => Less
    }
    /** The first comparison that is not a tie. */
    function Then(next: Ordering): Ordering {
      if Equal? then next else this
    }
  }

  function CompareInt(a: int, b: int): Ordering {
    if a < b then Less else if a > b then Greater else Equal
  }

  /** The number a digit string denotes, most significant first. */
  function Val(ds: seq<Digit>): nat {
    if ds == [] then 0 else 10 * Val(ds[..|ds| - 1]) + ds[|ds| - 1]
  }

  function Pow10(n: nat): (p: nat)
    ensures p > 0
  {
    if n == 0 then 1 else 10 * Pow10(n - 1)
  }

  datatype BigUint = BigUint(digits: seq<Digit>) {
    /** No leading zero; zero is the empty string. */
    predicate Canonical() {
      digits == [] || digits[0] != 0
    }
    function Value(): nat {
      Val(digits)
    }
  }

  predicate IsDigit(b: u8) {
    48 <= b <= 57
  }

  predicate AllDigits(s: Text) {
    forall i :: 0 <= i < |s| ==> IsDigit(s[i])
  }

  function DigitsOf(s: Text): (ds: seq<Digit>)
    requires AllDigits(s)
    ensures |ds| == |s|
  {
    seq(|s|, i requires 0 <= i < |s| => s[i] - 48)
  }

  function DigitByte(d: int): (b: u8)
    requires 0 <= d <= 9
    ensures IsDigit(b) && b - 48 == d
  {
    48 + d
  }

  function TextOf(ds: seq<Digit>): (s: Text)
    ensures |s| == |ds| && AllDigits(s) && DigitsOf(s) == ds
  {
    var s: Text := seq(|ds|, i requires 0 <= i < |ds| => DigitByte(ds[i]));
    assert AllDigits(s) && DigitsOf(s) == ds;
    s
  }

  /** Leading zeros dropped. */
  function Normalize(ds: seq<Digit>): (r: BigUint)
    ensures r.Canonical() && r.Value() == Val(ds)
  {
    if ds != [] && ds[0] == 0 then
      ValHead(ds);
      Normalize(ds[1..])
    else BigUint(ds)
  }

  /** A run of ASCII digits; anything else is refused. */
  function ParseUint(s: Text): (r: Option<BigUint>)
    ensures r.Some? ==> r.value.Canonical()
    ensures r.Some? <==> s != [] && AllDigits(s)
  {
    if s == [] || !AllDigits(s) then None else Some(Normalize(DigitsOf(s)))
  }

  function UintText(u: BigUint): (s: Text)
    ensures s != [] && AllDigits(s)
  {
    if u.digits == [] then [48] else TextOf(u.digits)
  }

  lemma UintRoundTrip(u: BigUint)
    requires u.Canonical()
    ensures ParseUint(UintText(u)) == Some(u)
  {
    if u.digits == [] {
      assert DigitsOf([48]) == [0] && Normalize([0]) == Normalize([]);
    }
  }

  // ---- digits as numbers ---------------------------------------------------------

  lemma {:induction false} ValHead(ds: seq<Digit>)
    requires ds != []
    ensures Val(ds) == ds[0] * Pow10(|ds| - 1) + Val(ds[1..])
  {
    var n := |ds| - 1;
    if n > 0 {
      ValHead(ds[..n]);
      assert ds[..n][1..] == ds[1..][..n - 1];
      TenTimes(ds[0], Pow10(n - 1));
    } else {
      assert ds[..0] == [] && ds[1..] == [];
    }
  }

  lemma TenTimes(d: nat, p: nat)
    ensures 10 * (d * p) == d * (10 * p)
  {
  }

  lemma {:induction false} ValBound(ds: seq<Digit>)
    ensures Val(ds) < Pow10(|ds|)
    ensures ds != [] && ds[0] != 0 ==> Pow10(|ds| - 1) <= Val(ds)
  {
    if ds != [] {
      ValBound(ds[..|ds| - 1]);
    }
  }

  lemma {:induction false} Pow10Mono(a: nat, b: nat)
    requires a <= b
    ensures Pow10(a) <= Pow10(b)
  {
    if a < b {
      Pow10Mono(a, b - 1);
    }
  }

  /** The first difference decides. */
  function CompareDigits(a: seq<int>, b: seq<int>): Ordering {
    if a == [] then (if b == [] then Equal else Less)
    else if b == [] then Greater
    else CompareInt(a[0], b[0]).Then(CompareDigits(a[1..], b[1..]))
  }

  function CompareUint(a: BigUint, b: BigUint): Ordering {
    if |a.digits| != |b.digits| then CompareInt(|a.digits|, |b.digits|) else CompareDigits(a.digits, b.digits)
  }

  lemma {:induction false} SameLengthOrder(a: seq<Digit>, b: seq<Digit>)
    requires |a| == |b|
    ensures CompareDigits(a, b) == CompareInt(Val(a), Val(b))
    ensures CompareDigits(a, b) == Equal ==> a == b
  {
    if a != [] {
      SameLengthOrder(a[1..], b[1..]);
      ValHead(a);
      ValHead(b);
      ValBound(a[1..]);
      ValBound(b[1..]);
      if a[0] < b[0] {
        LeadDecides(a[0], b[0], Pow10(|a| - 1), Val(a[1..]), Val(b[1..]));
      } else if b[0] < a[0] {
        LeadDecides(b[0], a[0], Pow10(|a| - 1), Val(b[1..]), Val(a[1..]));
      }
    }
  }

  lemma LeadDecides(x: nat, y: nat, p: nat, u: nat, v: nat)
    requires x < y && u < p
    ensures x * p + u < y * p + v
  {
    assert (y - x - 1) * p >= 0;
    assert y * p == x * p + p + (y - x - 1) * p;
  }

  /** `cmp` on canonical digit strings is the order of the numbers, and ties only equals. */
  lemma UintOrder(a: BigUint, b: BigUint)
    requires a.Canonical() && b.Canonical()
    ensures CompareUint(a, b) == CompareInt(a.Value(), b.Value())
    ensures a.Value() == b.Value() ==> a == b
  {
    if |a.digits| == |b.digits| {
      SameLengthOrder(a.digits, b.digits);
    } else {
      ValBound(a.digits);
      ValBound(b.digits);
      if |a.digits| < |b.digits| {
        Pow10Mono(|a.digits|, |b.digits| - 1);
      } else {
        Pow10Mono(|b.digits|, |a.digits| - 1);
      }
    }
  }

  // ---- the loops --------------------------------------------------------------------

  /** Digit by digit, then the leading zeros dropped. */
  method ParseUintLoop(s: Text) returns (r: Option<BigUint>)
    ensures r == ParseUint(s)
  {
    if s == [] {
      return None;
    }
    var digits: seq<Digit> := [];
    for i := 0 to |s|
      invariant |digits| == i
      invariant forall k :: 0 <= k < i ==> IsDigit(s[k]) && digits[k] == s[k] - 48
    {
      if !IsDigit(s[i]) {
        return None;
      }
      digits := digits + [s[i] - 48];
    }
    assert digits == DigitsOf(s);
    var v := NormalizeLoop(digits);
    return Some(v);
  }

  method NormalizeLoop(digits: seq<Digit>) returns (r: BigUint)
    ensures r == Normalize(digits)
  {
    var lead := 0;
    while lead < |digits| && digits[lead] == 0
      invariant lead <= |digits|
      invariant Normalize(digits) == Normalize(digits[lead..])
    {
      lead := lead + 1;
    }
    return BigUint(digits[lead..]);
  }

  /** Horner over the digits. */
  method RemU32(u: BigUint, m: u32) returns (r: u32)
    requires m != 0
    ensures r == u.Value() % m
  {
    r := 0;
    for i := 0 to |u.digits|
      invariant r == Val(u.digits[..i]) % m
    {
      assert u.digits[..i + 1][..i] == u.digits[..i];
      var v, d := Val(u.digits[..i]), u.digits[i];
      RemStep(v, d, m);
      r := (r * 10 + d) % m;
    }
    assert u.digits[..|u.digits|] == u.digits;
  }

  lemma RemUnique(a: nat, m: nat, q: nat, r: nat)
    requires a == q * m + r && r < m
    ensures a % m == r
  {
    var p := a / m;
    assert a == p * m + a % m;
    if p < q {
      LeadDecides(p, q, m, a % m, r);
    } else if q < p {
      LeadDecides(q, p, m, r, a % m);
    }
  }

  lemma RemStep(v: nat, d: nat, m: nat)
    requires m != 0
    ensures (v % m * 10 + d) % m == (10 * v + d) % m
  {
    var q, x := v / m, v % m * 10 + d;
    var p := x / m;
    assert v == q * m + v % m && x == p * m + x % m;
    Regroup(q, p, m);
    RemUnique(10 * v + d, m, 10 * q + p, x % m);
  }

  lemma Regroup(q: nat, p: nat, m: nat)
    ensures (10 * q + p) * m == 10 * (q * m) + p * m
  {
  }

  ghost function Repeat(d: Digit, n: nat): (ds: seq<Digit>)
    ensures |ds| == n && forall i :: 0 <= i < n ==> ds[i] == d
  {
    seq(n, _ => d)
  }

  /** A carry over nines, or read backwards a borrow over zeros, is worth one. */
  lemma {:induction false} Carry(above: seq<Digit>, below: seq<Digit>, n: nat)
    requires Val(above) == Val(below) + 1
    ensures Val(above + Repeat(0, n)) == Val(below + Repeat(9, n)) + 1
  {
    if n == 0 {
      assert above + Repeat(0, 0) == above && below + Repeat(9, 0) == below;
    } else {
      Carry(above, below, n - 1);
      assert above + Repeat(0, n) == above + Repeat(0, n - 1) + [0];
      assert below + Repeat(9, n) == below + Repeat(9, n - 1) + [9];
      ValLast(above + Repeat(0, n - 1), 0);
      ValLast(below + Repeat(9, n - 1), 9);
    }
  }

  lemma ValLast(ds: seq<Digit>, d: Digit)
    ensures Val(ds + [d]) == 10 * Val(ds) + d
  {
    assert (ds + [d])[..|ds|] == ds;
  }

  lemma OneMore(low: seq<Digit>, d: Digit, n: nat)
    ensures low + [d] + Repeat(d, n) == low + Repeat(d, n + 1)
  {
  }

  lemma CarryStops(low: seq<Digit>, d: Digit, n: nat)
    requires d < 9
    ensures Val(low + [d + 1] + Repeat(0, n)) == Val(low + [d] + Repeat(9, n)) + 1
  {
    ValLast(low, d);
    ValLast(low, d + 1);
    Carry(low + [d + 1], low + [d], n);
  }

  lemma CarryOut(n: nat)
    ensures Val([1] + Repeat(0, n)) == Val(Repeat(9, n)) + 1
  {
    ValLast([], 1);
    assert [] + [1] == [1];
    Carry([1], [], n);
    assert [] + Repeat(9, n) == Repeat(9, n);
  }

  /** The next number, by carrying over trailing nines. */
  method Succ(u: BigUint) returns (r: BigUint)
    ensures r.Canonical() && r.Value() == u.Value() + 1
  {
    var digits := u.digits;
    var i := |digits|;
    while true
      invariant 0 <= i <= |u.digits|
      invariant digits == u.digits[..i] + Repeat(0, |u.digits| - i)
      invariant u.digits == u.digits[..i] + Repeat(9, |u.digits| - i)
      decreases i
    {
      ghost var k := |u.digits| - i;
      if i == 0 {
        assert digits == Repeat(0, k) && u.digits == Repeat(9, k);
        digits := [1] + digits;
        CarryOut(k);
        break;
      }
      i := i - 1;
      ghost var low := u.digits[..i];
      assert u.digits[..i + 1] == low + [digits[i]];
      if digits[i] == 9 {
        digits := digits[i := 0];
        OneMore(low, 0, k);
        OneMore(low, 9, k);
      } else {
        CarryStops(low, digits[i], k);
        digits := digits[i := digits[i] + 1];
        assert digits == low + [u.digits[i] + 1] + Repeat(0, k);
        break;
      }
    }
    r := NormalizeLoop(digits);
  }

  /** The previous number, saturating at zero, by borrowing over trailing zeros. */
  method Pred(u: BigUint) returns (r: BigUint)
    requires u.Canonical()
    ensures r.Canonical() && r.Value() == if u.Value() == 0 then 0 else u.Value() - 1
  {
    var digits := u.digits;
    var i := |digits|;
    while true
      invariant 0 <= i <= |u.digits|
      invariant digits == u.digits[..i] + Repeat(9, |u.digits| - i)
      invariant u.digits == u.digits[..i] + Repeat(0, |u.digits| - i)
      decreases i
    {
      ghost var k := |u.digits| - i;
      if i == 0 {
        assert u.digits == Repeat(0, k);
        assert u.digits == [];
        break;
      }
      i := i - 1;
      ghost var low := u.digits[..i];
      assert u.digits[..i + 1] == low + [digits[i]];
      if digits[i] == 0 {
        digits := digits[i := 9];
        OneMore(low, 9, k);
        OneMore(low, 0, k);
      } else {
        CarryStops(low, digits[i] - 1, k);
        digits := digits[i := digits[i] - 1];
        assert digits == low + [u.digits[i] - 1] + Repeat(9, k);
        break;
      }
    }
    r := NormalizeLoop(digits);
  }

  // ---- signed ----------------------------------------------------------------------------

  datatype BigInt = BigInt(negative: bool, mag: BigUint) {
    /** Zero is never negative. */
    predicate Canonical() {
      mag.Canonical() && (negative ==> mag.digits != [])
    }
    function Value(): int {
      if negative then 0 - mag.Value() else mag.Value()
    }
  }

  function FromParts(negative: bool, mag: BigUint): (r: BigInt)
    requires mag.Canonical()
    ensures r.Canonical() && r.Value() == if negative then 0 - mag.Value() else mag.Value()
  {
    BigInt(negative && mag.digits != [], mag)
  }

  /** `[+-]?digits` */
  function ParseInt(s: Text): (r: Option<BigInt>)
    ensures r.Some? ==> r.value.Canonical()
  {
    var signed := s != [] && (s[0] == 45 || s[0] == 43);
    var mag := ParseUint(if signed then s[1..] else s);
    if mag.None? then None else Some(FromParts(signed && s[0] == 45, mag.value))
  }

  function IntText(v: BigInt): Text {
    (if v.negative then [45] else []) + UintText(v.mag)
  }

  lemma IntRoundTrip(v: BigInt)
    requires v.Canonical()
    ensures ParseInt(IntText(v)) == Some(v)
  {
    UintRoundTrip(v.mag);
    assert IsDigit(UintText(v.mag)[0]);
    if v.negative {
      assert IntText(v)[1..] == UintText(v.mag);
    } else {
      assert IntText(v) == UintText(v.mag);
    }
  }

  function CompareBigInt(a: BigInt, b: BigInt): Ordering {
    if !a.negative && b.negative then Greater
    else if a.negative && !b.negative then Less
    else if a.negative then CompareUint(b.mag, a.mag)
    else CompareUint(a.mag, b.mag)
  }

  lemma IntOrder(a: BigInt, b: BigInt)
    requires a.Canonical() && b.Canonical()
    ensures CompareBigInt(a, b) == CompareInt(a.Value(), b.Value())
    ensures a.Value() == b.Value() ==> a == b
  {
    UintOrder(a.mag, b.mag);
    UintOrder(b.mag, a.mag);
    ValBound(a.mag.digits);
    ValBound(b.mag.digits);
  }

  method IntSucc(v: BigInt) returns (r: BigInt)
    requires v.Canonical()
    ensures r.Canonical() && r.Value() == v.Value() + 1
  {
    if v.negative {
      ValBound(v.mag.digits);
      var mag := Pred(v.mag);
      r := FromParts(true, mag);
    } else {
      var mag := Succ(v.mag);
      r := FromParts(false, mag);
    }
  }
}
