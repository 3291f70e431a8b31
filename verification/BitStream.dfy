/** Bits of a byte string, least significant first, and the numbers and codes they carry. */
module BitStream {
  import opened Errors
  import opened Bytes

  type Bit = b: int | 0 <= b < 2

  function BitOf(data: seq<u8>, k: nat): Bit
    requires k < 8 * |data|
  {
    data[k / 8] / Pow2(k % 8) % 2
  }

  function Stream(data: seq<u8>): (s: seq<Bit>)
    ensures |s| == 8 * |data|
  {
    seq(8 * |data|, k requires 0 <= k < 8 * |data| => BitOf(data, k))
  }

  // ---- numbers, low bit first ----------------------------------------------------------------

  function LsbVal(bs: seq<Bit>): nat {
    if bs == [] then 0 else bs[0] + 2 * LsbVal(bs[1..])
  }

  function LsbBits(v: nat, n: nat): (bs: seq<Bit>)
    ensures |bs| == n
  {
    if n == 0 then [] else [v % 2] + LsbBits(v / 2, n - 1)
  }

  lemma {:induction false} LsbRoundTrip(v: nat, n: nat)
    requires v < Pow2(n)
    ensures LsbVal(LsbBits(v, n)) == v
  {
    if n > 0 {
      LsbRoundTrip(v / 2, n - 1);
      assert LsbBits(v, n)[1..] == LsbBits(v / 2, n - 1);
    }
  }

  lemma LsbFirst(bs: seq<Bit>)
    requires bs != []
    ensures LsbVal(bs) % 2 == bs[0] && LsbVal(bs) / 2 == LsbVal(bs[1..])
  {
    var v := LsbVal(bs[1..]);
    assert LsbVal(bs) == bs[0] + 2 * v;
  }

  lemma {:induction false} LsbInverse(bs: seq<Bit>)
    ensures LsbBits(LsbVal(bs), |bs|) == bs
  {
    if bs != [] {
      LsbInverse(bs[1..]);
      LsbFirst(bs);
      assert bs == [bs[0]] + bs[1..];
    }
  }

  lemma {:induction false} LsbLast(bs: seq<Bit>, b: Bit)
    ensures LsbVal(bs + [b]) == LsbVal(bs) + b * Pow2(|bs|)
  {
    if bs == [] {
      assert [b][1..] == [] && [] + [b] == [b];
    } else {
      LsbLast(bs[1..], b);
      assert (bs + [b])[1..] == bs[1..] + [b];
      Double(b, Pow2(|bs| - 1));
    }
  }

  lemma Double(b: nat, p: nat)
    ensures 2 * (b * p) == b * (2 * p)
  {
  }

  lemma {:induction false} LsbBound(bs: seq<Bit>)
    ensures LsbVal(bs) < Pow2(|bs|)
  {
    if bs != [] {
      LsbBound(bs[1..]);
    }
  }

  /** The eight bits of a byte, the first the lowest, are the byte. */
  lemma ByteRead(data: seq<u8>, k: nat)
    requires k < |data|
    ensures LsbVal(Stream(data)[8 * k..8 * k + 8]) == data[k]
  {
    var bs, b := Stream(data)[8 * k..8 * k + 8], data[k];
    forall i | 0 <= i < 8
      ensures bs[i] == b / Pow2(i) % 2
    {
      assert (8 * k + i) / 8 == k && (8 * k + i) % 8 == i;
    }
    forall i | 0 <= i < 8
      ensures LsbBits(b, 8)[i] == b / Pow2(i) % 2
    {
      LsbBitAt(b, 8, i);
    }
    assert bs == LsbBits(b, 8);
    assert Pow2(4) == 16 && Pow2(8) == 16 * Pow2(4);
    LsbRoundTrip(b, 8);
  }

  lemma {:induction false} LsbBitAt(v: nat, n: nat, i: nat)
    requires i < n
    ensures LsbBits(v, n)[i] == v / Pow2(i) % 2
  {
    if i > 0 {
      LsbBitAt(v / 2, n - 1, i - 1);
      DivTwice(v, Pow2(i - 1));
    }
  }

  // ---- codes, high bit first -----------------------------------------------------------------

  function MsbVal(bs: seq<Bit>): nat {
    if bs == [] then 0 else 2 * MsbVal(bs[..|bs| - 1]) + bs[|bs| - 1]
  }

  function MsbBits(v: nat, n: nat): (bs: seq<Bit>)
    ensures |bs| == n
  {
    if n == 0 then [] else MsbBits(v / 2, n - 1) + [v % 2]
  }

  lemma MsbPush(bs: seq<Bit>, b: Bit)
    ensures MsbVal(bs + [b]) == 2 * MsbVal(bs) + b
  {
    assert (bs + [b])[..|bs|] == bs;
  }

  lemma {:induction false} MsbRoundTrip(v: nat, n: nat)
    requires v < Pow2(n)
    ensures MsbVal(MsbBits(v, n)) == v
  {
    if n > 0 {
      MsbRoundTrip(v / 2, n - 1);
      assert MsbBits(v, n)[..n - 1] == MsbBits(v / 2, n - 1);
    }
  }

  lemma {:induction false} MsbInverse(bs: seq<Bit>)
    ensures MsbBits(MsbVal(bs), |bs|) == bs
  {
    if bs != [] {
      var n := |bs| - 1;
      MsbInverse(bs[..n]);
      assert MsbVal(bs) / 2 == MsbVal(bs[..n]) && MsbVal(bs) % 2 == bs[n];
      assert bs == bs[..n] + [bs[n]];
    }
  }

  /** The front of a code is the code of the number shifted right. */
  lemma {:induction false} MsbFront(v: nat, n: nat, l: nat)
    requires l <= n && v < Pow2(n)
    ensures v / Pow2(n - l) < Pow2(l) && MsbBits(v, n)[..l] == MsbBits(v / Pow2(n - l), l)
  {
    if l < n {
      MsbFront(v / 2, n - 1, l);
      assert MsbBits(v, n)[..l] == MsbBits(v / 2, n - 1)[..l];
      DivTwice(v, Pow2(n - 1 - l));
    }
  }

  lemma DivTwice(x: nat, p: nat)
    requires p > 0
    ensures x / 2 / p == x / (2 * p) && x / p / 2 == x / (2 * p)
  {
    DivBy(x, p, 2 * p);
  }

  lemma DivBy(x: nat, p: nat, m: nat)
    requires p > 0 && m == 2 * p
    ensures x / 2 / p == x / m && x / p / 2 == x / m
  {
    var q, r := Divided(x, m);
    Halves(x, q, p, m, r);
  }

  lemma Divided(x: nat, m: nat) returns (q: nat, r: nat)
    requires m > 0
    ensures q == x / m && r < m && x == q * m + r
  {
    q, r := x / m, x % m;
  }

  lemma Halves(x: nat, q: nat, p: nat, m: nat, r: nat)
    requires p > 0 && m == 2 * p && x == q * m + r && r < m
    ensures x / 2 / p == q && x / p / 2 == q
  {
    var t, e := q * p, if r < p then 0 else 1;
    TwiceTimes(q, e, p);
    HalfOf(x, t, r);
    QuotientIs(x / 2, q, p, r / 2);
    QuotientIs(x, 2 * q + e, p, r - e * p);
    HalfOf(2 * q + e, q, e);
  }

  lemma TwiceTimes(q: nat, e: nat, p: nat)
    ensures q * (2 * p) == 2 * (q * p) && (2 * q + e) * p == 2 * (q * p) + e * p
  {
  }

  lemma HalfOf(x: nat, t: nat, r: nat)
    requires x == 2 * t + r
    ensures x / 2 == t + r / 2
  {
  }

  // ---- the reader ------------------------------------------------------------------------------

  class BitReader {
    const data: seq<u8>
    var pos: nat
    var bitbuf: nat
    var bitcnt: nat

    ghost predicate Valid()
      reads this
    {
      && pos <= |data| && bitcnt < 8
      && (bitcnt > 0 ==> pos > 0 && bitbuf == data[pos - 1] / Pow2(8 - bitcnt))
    }

    /** The next bit's place in the stream. */
    ghost function At(): (k: nat)
      requires Valid()
      reads this
      ensures k <= 8 * |data|
    {
      8 * pos - bitcnt
    }

    constructor (data: seq<u8>)
      ensures this.data == data && Valid() && At() == 0
    {
      this.data, pos, bitbuf, bitcnt := data, 0, 0, 0;
    }

    method NextBit() returns (r: Option<Bit>)
      requires Valid()
      modifies this
      ensures Valid()
      ensures old(At()) < 8 * |data| ==> r == Some(Stream(data)[old(At())]) && At() == old(At()) + 1
      ensures old(At()) == 8 * |data| ==> r == None && At() == old(At())
    {
      if bitcnt == 0 {
        if pos >= |data| {
          return None;
        }
        bitbuf := data[pos];
        pos := pos + 1;
        bitcnt := 8;
      }
      ghost var k := 8 - bitcnt;
      assert (8 * (pos - 1) + k) / 8 == pos - 1 && (8 * (pos - 1) + k) % 8 == k;
      DivTwice(data[pos - 1], Pow2(k));
      var b := bitbuf % 2;
      bitbuf := bitbuf / 2;
      bitcnt := bitcnt - 1;
      return Some(b);
    }

    /** `n` bits, the first the lowest. */
    method Bits(n: nat) returns (r: Option<nat>)
      requires Valid()
      modifies this
      ensures Valid()
      ensures old(At()) + n <= 8 * |data| ==>
        r == Some(LsbVal(Stream(data)[old(At())..old(At()) + n])) && At() == old(At()) + n
      ensures old(At()) + n > 8 * |data| ==> r == None
    {
      ghost var s, start := Stream(data), At();
      var v: nat, p: nat := 0, 1;
      for i := 0 to n
        invariant Valid() && At() == start + i && p == Pow2(i)
        invariant start + i <= 8 * |data| && v == LsbVal(s[start..start + i])
      {
        var b := NextBit();
        if b.None? { return None; }
        LsbLast(s[start..start + i], b.value);
        assert s[start..start + i + 1] == s[start..start + i] + [b.value];
        v := v + b.value * p;
        p := 2 * p;
      }
      return Some(v);
    }

    /** Drop the rest of the current byte. */
    method Align()
      requires Valid()
      modifies this
      ensures Valid() && pos == old(pos) && At() == 8 * pos && bitcnt == 0 && At() == (old(At()) + 7) / 8 * 8
    {
      bitcnt := 0;
    }
  }
}
