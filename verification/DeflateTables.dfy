/** The symbols of section 3.2.5 of RFC 1951 by arithmetic, and the decoder's tables held against them. */
module DeflateTables {
  import opened Bytes
  import opened BitStream
  import opened Huffman
  import opened Inflate

  // ---- numbers as a leading part and the bits behind it ----------------------------------------

  function Log2(n: nat): nat {
    if n < 2 then 0 else 1 + Log2(n / 2)
  }

  lemma {:induction false} Log2Bounds(n: nat)
    requires n > 0
    ensures Pow2(Log2(n)) <= n < Pow2(Log2(n) + 1)
  {
    if n >= 2 {
      Log2Bounds(n / 2);
    }
  }

  lemma Log2Is(n: nat, l: nat)
    requires Pow2(l) <= n < Pow2(l + 1)
    ensures Log2(n) == l
  {
    hide Pow2, Log2;
    Log2Bounds(n);
    if Log2(n) < l {
      Pow2Mono(Log2(n) + 1, l);
    } else if l < Log2(n) {
      Pow2Mono(l + 1, Log2(n));
    }
  }

  /** How many low bits of `n` follow a leading part below `2 * 2^k`. */
  function Exponent(n: nat, k: nat): nat {
    if n < Pow2(k) || Log2(n) < k then 0 else Log2(n) - k
  }

  function Leading(n: nat, k: nat): nat {
    n / Pow2(Exponent(n, k))
  }

  function Trailing(n: nat, k: nat): nat {
    n % Pow2(Exponent(n, k))
  }

  /** Exponents in steps of `2^k` leading parts. */
  function GroupOf(n: nat, k: nat): nat {
    Pow2(k) * Exponent(n, k) + Leading(n, k)
  }

  lemma Parts(n: nat, k: nat)
    ensures var e := Exponent(n, k);
      && n == Leading(n, k) * Pow2(e) + Trailing(n, k) && Trailing(n, k) < Pow2(e)
      && Leading(n, k) < 2 * Pow2(k) && (e > 0 ==> Pow2(k) <= Leading(n, k))
  {
    hide Log2, Pow2;
    var e := Exponent(n, k);
    var q, r := Divided(n, Pow2(e));
    if n >= Pow2(k) {
      LeadingBit(n, k);
      QuotientBetween(n, Pow2(k), Pow2(e), q, r);
    } else {
      NoBits(n);
    }
  }

  lemma NoBits(n: nat)
    ensures Pow2(0) == 1 && n / Pow2(0) == n && n % Pow2(0) == 0
  {
  }

  /** A number of at least `2^k` has its highest bit `k` places above the trailing part. */
  lemma LeadingBit(n: nat, k: nat)
    requires n >= Pow2(k)
    ensures Pow2(k) * Pow2(Exponent(n, k)) <= n < 2 * Pow2(k) * Pow2(Exponent(n, k))
  {
    hide Log2;
    Log2Bounds(n);
    if Log2(n) < k {
      Pow2Mono(Log2(n) + 1, k);
    }
    Pow2Sum(k, Exponent(n, k));
    Twice(Pow2(k), Pow2(Exponent(n, k)));
  }

  lemma Twice(c: nat, p: nat)
    ensures 2 * c * p == 2 * (c * p)
  {
  }

  lemma QuotientBetween(n: nat, c: nat, p: nat, q: nat, r: nat)
    requires n == q * p + r && r < p && c * p <= n < 2 * c * p
    ensures c <= q < 2 * c
  {
    if q >= 2 * c {
      Rises(2 * c, q, p, r);
    }
    if q < c {
      BelowTimes(q, c, p, r);
    }
  }

  lemma Rises(a: nat, b: nat, p: nat, r: nat)
    requires a <= b
    ensures a * p <= b * p + r
  {
    assert b * p == a * p + (b - a) * p;
  }

  lemma Joined(q: nat, e: nat, x: nat, k: nat)
    requires q < 2 * Pow2(k) && (e > 0 ==> Pow2(k) <= q) && x < Pow2(e)
    ensures var n := q * Pow2(e) + x; Exponent(n, k) == e && Leading(n, k) == q && Trailing(n, k) == x
  {
    hide Log2, Pow2;
    var n := q * Pow2(e) + x;
    if Pow2(k) <= q {
      HighBit(q, e, x, k);
    } else {
      NoBits(n);
    }
    QuotientIs(n, q, Pow2(e), x);
    RemainderIs(n, q, Pow2(e), x);
  }

  lemma HighBit(q: nat, e: nat, x: nat, k: nat)
    requires Pow2(k) <= q < 2 * Pow2(k) && x < Pow2(e)
    ensures var n := q * Pow2(e) + x; Log2(n) == k + e && Pow2(k) <= n
  {
    hide Log2, Pow2;
    var n := q * Pow2(e) + x;
    Rises(Pow2(k), q, Pow2(e), x);
    BelowTimes(q, 2 * Pow2(k), Pow2(e), x);
    Twice(Pow2(k), Pow2(e));
    Pow2Sum(k, e);
    NextPow2(k + e);
    Log2Is(n, k + e);
    Pow2Mono(k, k + e);
  }

  lemma NextPow2(l: nat)
    ensures Pow2(l + 1) == 2 * Pow2(l)
  {
  }

  // ---- lengths and distances ----------------------------------------------------------------------

  /** Lengths 3 to 258 in four groups per extra bit; 258 has a symbol of its own, but `long` spells it as the last of
      the group before. */
  function LengthSymbol(length: nat, long: bool): nat {
    if length == 258 && !long then 28 else GroupOf(if length < 3 then 0 else length - 3, 2)
  }

  function LengthBits(length: nat, long: bool): seq<Bit> {
    var n := if length < 3 then 0 else length - 3;
    if length == 258 && !long then [] else LsbBits(Trailing(n, 2), Exponent(n, 2))
  }

  /** Distances 1 to 32768 in two groups per extra bit. */
  function DistanceSymbol(distance: nat): nat {
    GroupOf(if distance < 1 then 0 else distance - 1, 1)
  }

  function DistanceBits(distance: nat): seq<Bit> {
    var n := if distance < 1 then 0 else distance - 1;
    LsbBits(Trailing(n, 1), Exponent(n, 1))
  }

  /** Symbol `s` stands for the lengths whose number less 3 has this exponent and leading part. */
  predicate LenGroup(s: nat)
    requires s < 28
  {
    && LenExtra()[s] == (if s < 4 then 0 else s / 4 - 1)
    && LenBase()[s] == 3 + (s - 4 * LenExtra()[s]) * Pow2(LenExtra()[s])
  }

  lemma SmallPow2()
    ensures Pow2(0) == 1 && Pow2(1) == 2 && Pow2(2) == 4 && Pow2(3) == 8 && Pow2(4) == 16 && Pow2(5) == 32
    ensures Pow2(6) == 64 && Pow2(7) == 128 && Pow2(8) == 256 && Pow2(9) == 512 && Pow2(10) == 1024
    ensures Pow2(11) == 2048 && Pow2(12) == 4096 && Pow2(13) == 8192 && Pow2(14) == 16384 && Pow2(15) == 32768
  {
    assert Pow2(5) == 32;
    assert Pow2(10) == 32 * Pow2(5) by { Pow2Sum(5, 5); }
    assert Pow2(9) == 32 * Pow2(4) by { Pow2Sum(5, 4); }
    assert Pow2(8) == 32 * Pow2(3) by { Pow2Sum(5, 3); }
    assert Pow2(7) == 32 * Pow2(2) by { Pow2Sum(5, 2); }
    assert Pow2(15) == 32 * Pow2(10) by { Pow2Sum(5, 10); }
    assert Pow2(14) == 32 * Pow2(9) by { Pow2Sum(5, 9); }
    assert Pow2(13) == 32 * Pow2(8) by { Pow2Sum(5, 8); }
    assert Pow2(12) == 32 * Pow2(7) by { Pow2Sum(5, 7); }
  }

  /** The table of lengths: each symbol's first length and number of extra bits. */
  lemma LengthTable(s: nat)
    requires s < 29
    ensures s < 28 ==> LenGroup(s)
    ensures s == 28 ==> LenBase()[s] == 258 && LenExtra()[s] == 0
    ensures s < 27 ==> LenBase()[s + 1] == LenBase()[s] + Pow2(LenExtra()[s])
  {
    SmallPow2();
    if s < 10 { LowLengths(s); } else if s < 20 { MiddleLengths(s); } else { HighLengths(s); }
  }

  lemma LowLengths(s: nat)
    requires s < 10
    ensures LenGroup(s) && LenBase()[s + 1] == LenBase()[s] + Pow2(LenExtra()[s])
  {
    SmallPow2();
    assert s == 0 || s == 1 || s == 2 || s == 3 || s == 4 || s == 5 || s == 6 || s == 7 || s == 8 || s == 9;
  }

  lemma MiddleLengths(s: nat)
    requires 10 <= s < 20
    ensures LenGroup(s) && LenBase()[s + 1] == LenBase()[s] + Pow2(LenExtra()[s])
  {
    SmallPow2();
    assert s == 10 || s == 11 || s == 12 || s == 13 || s == 14 || s == 15 || s == 16 || s == 17 || s == 18 || s == 19;
  }

  lemma HighLengths(s: nat)
    requires 20 <= s < 29
    ensures s < 28 ==> LenGroup(s)
    ensures s == 28 ==> LenBase()[s] == 258 && LenExtra()[s] == 0
    ensures s < 27 ==> LenBase()[s + 1] == LenBase()[s] + Pow2(LenExtra()[s])
  {
    SmallPow2();
    assert s == 20 || s == 21 || s == 22 || s == 23 || s == 24 || s == 25 || s == 26 || s == 27 || s == 28;
  }

  predicate DistGroup(d: nat)
    requires d < 30
  {
    && DistExtra()[d] == (if d < 2 then 0 else d / 2 - 1)
    && DistBase()[d] == 1 + (d - 2 * DistExtra()[d]) * Pow2(DistExtra()[d])
  }

  /** The table of distances. */
  lemma DistanceTable(d: nat)
    requires d < 30
    ensures DistGroup(d)
    ensures d < 29 ==> DistBase()[d + 1] == DistBase()[d] + Pow2(DistExtra()[d])
    ensures d == 29 ==> DistBase()[d] + Pow2(DistExtra()[d]) == 32769
  {
    if d < 10 { LowDistances(d); } else if d < 20 { MiddleDistances(d); } else { HighDistances(d); }
  }

  lemma LowDistances(d: nat)
    requires d < 10
    ensures DistGroup(d) && DistBase()[d + 1] == DistBase()[d] + Pow2(DistExtra()[d])
  {
    SmallPow2();
    assert d == 0 || d == 1 || d == 2 || d == 3 || d == 4 || d == 5 || d == 6 || d == 7 || d == 8 || d == 9;
  }

  lemma MiddleDistances(d: nat)
    requires 10 <= d < 20
    ensures DistGroup(d) && DistBase()[d + 1] == DistBase()[d] + Pow2(DistExtra()[d])
  {
    SmallPow2();
    assert d == 10 || d == 11 || d == 12 || d == 13 || d == 14 || d == 15 || d == 16 || d == 17 || d == 18 || d == 19;
  }

  lemma HighDistances(d: nat)
    requires 20 <= d < 30
    ensures DistGroup(d)
    ensures d < 29 ==> DistBase()[d + 1] == DistBase()[d] + Pow2(DistExtra()[d])
    ensures d == 29 ==> DistBase()[d] + Pow2(DistExtra()[d]) == 32769
  {
    SmallPow2();
    assert d == 20 || d == 21 || d == 22 || d == 23 || d == 24 || d == 25 || d == 26 || d == 27 || d == 28 || d == 29;
  }

  /** A number below `2^(k + m + 1)` has at most `m` trailing bits. */
  lemma FewBits(n: nat, k: nat, m: nat)
    requires n < Pow2(k + m + 1)
    ensures Exponent(n, k) <= m
  {
    hide Log2, Pow2;
    if n >= Pow2(k) && Exponent(n, k) > m {
      Log2Bounds(n);
      Pow2Mono(k + m + 1, Log2(n));
    }
  }

  /** Every length has its symbol, and the table gives the length back from the extra bits. */
  lemma LengthSpelt(length: nat, long: bool)
    requires 3 <= length <= 258 && (long ==> length == 258)
    ensures var s, bits := LengthSymbol(length, long), LengthBits(length, long);
      s < 29 && |bits| == LenExtra()[s] && LenBase()[s] + LsbVal(bits) == length
  {
    hide LenBase, LenExtra, Log2, Pow2, Exponent, Leading, Trailing;
    LengthTable(28);
    if length != 258 || long {
      GroupSpelt(length - 3);
      LsbRoundTrip(Trailing(length - 3, 2), Exponent(length - 3, 2));
    }
  }

  lemma GroupSpelt(n: nat)
    requires n <= 255
    ensures var s := GroupOf(n, 2);
      && s < 28 && LenExtra()[s] == Exponent(n, 2) && LenBase()[s] + Trailing(n, 2) == n + 3
      && Trailing(n, 2) < Pow2(Exponent(n, 2))
  {
    hide LenBase, LenExtra, Log2, Pow2, Exponent, Leading, Trailing;
    SmallPow2();
    Parts(n, 2);
    FewBits(n, 2, 5);
    LengthTable(GroupOf(n, 2));
  }

  /** And every symbol spells a length with any extra bits. */
  lemma SpeltLength(s: nat, x: nat) returns (long: bool)
    requires s < 29 && x < Pow2(LenExtra()[s])
    ensures var length := LenBase()[s] + x;
      && 3 <= length <= 258 && (long ==> length == 258) && LengthSymbol(length, long) == s
      && LengthBits(length, long) == LsbBits(x, LenExtra()[s])
  {
    hide LenBase, LenExtra, Log2, Pow2;
    SmallPow2();
    LengthTable(s);
    long := s == 27 && x == 31;
    if s < 28 {
      var e := LenExtra()[s];
      var q := s - 4 * e;
      Joined(q, e, x, 2);
      Pow2Mono(e, 5);
      BelowTimes(q, 8, Pow2(e), x);
      if s < 27 {
        assert LenBase()[s] + x < 258 by { BelowLast(s, x); }
      }
    }
  }

  lemma BelowLast(s: nat, x: nat)
    requires s < 27 && x < Pow2(LenExtra()[s])
    ensures LenBase()[s] + x < 258
  {
    SmallPow2();
    LengthTable(s);
    if s < 10 {
      assert s == 0 || s == 1 || s == 2 || s == 3 || s == 4 || s == 5 || s == 6 || s == 7 || s == 8 || s == 9;
    } else if s < 20 {
      assert s == 10 || s == 11 || s == 12 || s == 13 || s == 14 || s == 15 || s == 16 || s == 17 || s == 18 || s == 19;
    } else {
      assert s == 20 || s == 21 || s == 22 || s == 23 || s == 24 || s == 25 || s == 26;
    }
  }

  lemma DistanceSpelt(distance: nat)
    requires 1 <= distance <= 32768
    ensures var d, bits := DistanceSymbol(distance), DistanceBits(distance);
      d < 30 && |bits| == DistExtra()[d] && DistBase()[d] + LsbVal(bits) == distance
  {
    hide DistBase, DistExtra, Log2, Pow2, Exponent, Leading, Trailing;
    SmallPow2();
    var n := distance - 1;
    Parts(n, 1);
    FewBits(n, 1, 13);
    DistanceTable(GroupOf(n, 1));
    LsbRoundTrip(Trailing(n, 1), Exponent(n, 1));
  }

  lemma SpeltDistance(d: nat, y: nat)
    requires d < 30 && y < Pow2(DistExtra()[d])
    ensures var distance := DistBase()[d] + y;
      1 <= distance <= 32768 && DistanceSymbol(distance) == d && DistanceBits(distance) == LsbBits(y, DistExtra()[d])
  {
    hide DistBase, DistExtra, Log2, Pow2;
    SmallPow2();
    DistanceTable(d);
    var e := DistExtra()[d];
    var q := d - 2 * e;
    Joined(q, e, y, 1);
    Pow2Mono(e, 13);
    BelowTimes(q, 4, Pow2(e), y);
  }

  // ---- the order of the code length code's lengths ------------------------------------------------

  /** 16, 17, 18, 0; then from 8 outwards, upwards and downwards by turns. */
  function SentAs(k: nat): (i: nat)
    requires k < 19
    ensures i < 19
  {
    if k < 3 then 16 + k else if k == 3 then 0 else if k % 2 == 0 then 6 + k / 2 else 9 - k / 2
  }

  lemma OrderTable(k: nat)
    requires k < 19
    ensures Order()[k] == SentAs(k)
  {
    if k < 10 {
      assert k == 0 || k == 1 || k == 2 || k == 3 || k == 4 || k == 5 || k == 6 || k == 7 || k == 8 || k == 9;
    } else {
      assert k == 10 || k == 11 || k == 12 || k == 13 || k == 14 || k == 15 || k == 16 || k == 17 || k == 18;
    }
  }

  lemma SentOnce(j: nat, k: nat)
    requires j < k < 19
    ensures SentAs(j) != SentAs(k)
  {
  }

  /** Each of the 19 is sent as some number. */
  lemma SentSome(i: nat) returns (k: nat)
    requires i < 19
    ensures k < 19 && SentAs(k) == i
  {
    k := if i >= 16 then i - 16 else if i == 0 then 3 else if i >= 8 then 2 * i - 12 else 19 - 2 * i;
  }
}
