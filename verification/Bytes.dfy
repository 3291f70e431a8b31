/** Machine integers as ranges of `int`, and their little-endian byte images. */
module Bytes {
  type u8 = x: int | 0 <= x < 0x100
  type u16 = x: int | 0 <= x < 0x1_0000
  type u32 = x: int | 0 <= x < 0x1_0000_0000
  type u64 = x: int | 0 <= x < 0x1_0000_0000_0000_0000

  /** The `n` low bytes of `v`, least significant first. */
  function ToLe(v: nat, n: nat): (s: seq<u8>)
    ensures |s| == n
  {
    if n == 0 then [] else [v % 256] + ToLe(v / 256, n - 1)
  }

  function FromLe(s: seq<u8>): (v: nat)
  {
    if s == [] then 0 else s[0] + 256 * FromLe(s[1..])
  }

  function Pow256(n: nat): (p: nat)
    ensures p > 0
  {
    if n == 0 then 1 else 256 * Pow256(n - 1)
  }

  lemma {:induction false} LeRoundTrip(v: nat, n: nat)
    requires v < Pow256(n)
    ensures FromLe(ToLe(v, n)) == v
  {
    if n > 0 {
      LeRoundTrip(v / 256, n - 1);
      assert ToLe(v, n)[1..] == ToLe(v / 256, n - 1);
    }
  }

  lemma {:induction false} LeInverse(s: seq<u8>)
    ensures ToLe(FromLe(s), |s|) == s
  {
    if s != [] {
      LeInverse(s[1..]);
      var v: nat := FromLe(s[1..]);
      assert FromLe(s) % 256 == s[0] && FromLe(s) / 256 == v;
      assert s == [s[0]] + s[1..];
    }
  }

  lemma {:induction false} FromLeBound(s: seq<u8>)
    ensures FromLe(s) < Pow256(|s|)
  {
    if s != [] {
      FromLeBound(s[1..]);
    }
  }

  function Pow2(n: nat): (p: nat)
    ensures p > 0
  {
    if n == 0 then 1 else 2 * Pow2(n - 1)
  }

  lemma {:induction false} Pow2Mono(a: nat, b: nat)
    requires a <= b
    ensures Pow2(a) <= Pow2(b)
  {
    if a < b {
      Pow2Mono(a, b - 1);
    }
  }

  lemma Pow256Values()
    ensures Pow256(4) == 0x1_0000_0000
    ensures Pow256(8) == 0x1_0000_0000_0000_0000
  {
    assert Pow256(2) == 0x1_0000;
    assert Pow256(3) == 0x100_0000;
    assert Pow256(4) == 0x1_0000_0000;
    assert Pow256(5) == 0x100_0000_0000;
    assert Pow256(6) == 0x1_0000_0000_0000;
    assert Pow256(7) == 0x100_0000_0000_0000;
  }

  /** The 32-bit field at byte `off`. */
  function GetU32(buf: seq<u8>, off: nat): (v: u32)
    requires off + 4 <= |buf|
  {
    FromLeBound(buf[off..off + 4]);
    Pow256Values();
    FromLe(buf[off..off + 4])
  }

  /** The 64-bit field at byte `off`. */
  function GetU64(buf: seq<u8>, off: nat): (v: u64)
    requires off + 8 <= |buf|
  {
    FromLeBound(buf[off..off + 8]);
    Pow256Values();
    FromLe(buf[off..off + 8])
  }

  /** The buffer with `v`'s 8 bytes at `off` and everything else as it was. */
  function PutU64(buf: seq<u8>, off: nat, v: u64): (r: seq<u8>)
    requires off + 8 <= |buf|
    ensures |r| == |buf|
  {
    buf[..off] + ToLe(v, 8) + buf[off + 8..]
  }

  lemma SliceOfSlice<T>(s: seq<T>, a: nat, b: nat, i: nat, j: nat)
    requires a <= b <= |s| && i <= j <= b - a
    ensures s[a..b][i..j] == s[a + i..a + j]
  {
    var l, r := s[a..b][i..j], s[a + i..a + j];
    assert |l| == |r| && forall k :: 0 <= k < |l| ==> l[k] == r[k];
  }

  lemma GetAt32(buf: seq<u8>, off: nat, v: u32)
    requires off + 4 <= |buf| && buf[off..off + 4] == ToLe(v, 4)
    ensures GetU32(buf, off) == v
  {
    Pow256Values();
    LeRoundTrip(v, 4);
  }

  lemma GetAt64(buf: seq<u8>, off: nat, v: u64)
    requires off + 8 <= |buf| && buf[off..off + 8] == ToLe(v, 8)
    ensures GetU64(buf, off) == v
  {
    Pow256Values();
    LeRoundTrip(v, 8);
  }

  lemma PutGet64(buf: seq<u8>, off: nat, v: u64)
    requires off + 8 <= |buf|
    ensures GetU64(PutU64(buf, off, v), off) == v
  {
    assert PutU64(buf, off, v)[off..off + 8] == ToLe(v, 8);
    GetAt64(PutU64(buf, off, v), off, v);
  }

  /** A field that does not overlap the written one reads as before. */
  lemma PutGetOther64(buf: seq<u8>, off: nat, v: u64, other: nat)
    requires off + 8 <= |buf| && other + 8 <= |buf|
    requires other + 8 <= off || off + 8 <= other
    ensures GetU64(PutU64(buf, off, v), other) == GetU64(buf, other)
  {
    assert PutU64(buf, off, v)[other..other + 8] == buf[other..other + 8];
  }

  /** A field has a value exactly when it has the value's bytes. */
  lemma FieldIs32(buf: seq<u8>, off: nat, v: u32)
    requires off + 4 <= |buf|
    ensures GetU32(buf, off) == v <==> buf[off..off + 4] == ToLe(v, 4)
  {
    LeInverse(buf[off..off + 4]);
    Pow256Values();
    LeRoundTrip(v, 4);
  }

  lemma FieldIs64(buf: seq<u8>, off: nat, v: u64)
    requires off + 8 <= |buf|
    ensures GetU64(buf, off) == v <==> buf[off..off + 8] == ToLe(v, 8)
  {
    LeInverse(buf[off..off + 8]);
    Pow256Values();
    LeRoundTrip(v, 8);
  }

  // ---- arithmetic ------------------------------------------------------------------------------

  lemma QuotientIs(x: nat, q: nat, p: nat, r: nat)
    requires p > 0 && x == q * p + r && r < p
    ensures x / p == q
  {
    var d := x / p - q;
    assert x == (x / p) * p + x % p;
    assert (x / p) * p == q * p + d * p;
    if d != 0 {
      AtLeast(if d > 0 then d else -d, p);
    }
  }

  lemma AtLeast(d: nat, p: nat)
    requires d >= 1
    ensures d * p >= p
  {
    assert (d - 1) * p >= 0;
  }

  lemma RemainderIs(x: nat, q: nat, p: nat, r: nat)
    requires p > 0 && x == q * p + r && r < p
    ensures x % p == r
  {
    QuotientIs(x, q, p, r);
  }
}
