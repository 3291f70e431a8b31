/** Canonical Huffman codes (section 3.2.2 of RFC 1951) and their table-driven decoding. */
module Huffman {
  import opened Errors
  import opened Bytes
  import opened BitStream

  /** The code length of each symbol; 0 marks an unused one. */
  type Lengths = seq<nat>

  predicate CodeLengths(ls: Lengths) {
    forall i :: 0 <= i < |ls| ==> ls[i] <= 15
  }

  /** How many symbols have length `l`. */
  function Count(ls: Lengths, l: nat): (c: nat)
    ensures c <= |ls|
  {
    if ls == [] then 0 else Count(ls[..|ls| - 1], l) + if ls[|ls| - 1] == l then 1 else 0
  }

  /** The smallest code of length `l`. */
  function First(ls: Lengths, l: nat): nat {
    if l <= 1 then 0 else 2 * (First(ls, l - 1) + Count(ls, l - 1))
  }

  /** How many symbols have a shorter code. */
  function Index(ls: Lengths, l: nat): nat {
    if l <= 1 then 0 else Index(ls, l - 1) + Count(ls, l - 1)
  }

  /** How many symbols before `i` have the same length. */
  function Rank(ls: Lengths, i: nat): nat
    requires i < |ls|
  {
    Count(ls[..i], ls[i])
  }

  /** Codes of one length are consecutive, in symbol order. */
  function Code(ls: Lengths, i: nat): nat
    requires i < |ls|
  {
    First(ls, ls[i]) + Rank(ls, i)
  }

  function CodeBits(ls: Lengths, i: nat): (bs: seq<Bit>)
    requires i < |ls|
    ensures |bs| == ls[i]
  {
    MsbBits(Code(ls, i), ls[i])
  }

  /** The share of the code space the lengths up to `l` use, in units of the longest codes. */
  function Kraft(ls: Lengths, l: nat): nat
    requires l <= 15
  {
    if l == 0 then 0 else Kraft(ls, l - 1) + Count(ls, l) * Pow2(15 - l)
  }

  /** The lengths do not over-subscribe the code space. */
  predicate KraftHolds(ls: Lengths) {
    Kraft(ls, 15) <= Pow2(15)
  }

  // ---- counting --------------------------------------------------------------------------------

  lemma CountStep(ls: Lengths, i: nat, l: nat)
    requires i < |ls|
    ensures Count(ls[..i + 1], l) == Count(ls[..i], l) + if ls[i] == l then 1 else 0
  {
    assert ls[..i + 1][..i] == ls[..i];
  }

  lemma {:induction false} CountMono(ls: Lengths, i: nat, j: nat, l: nat)
    requires i <= j <= |ls|
    ensures Count(ls[..i], l) <= Count(ls[..j], l)
  {
    if i < j {
      CountMono(ls, i, j - 1, l);
      CountStep(ls, j - 1, l);
    }
  }

  lemma RankBelow(ls: Lengths, i: nat)
    requires i < |ls|
    ensures Rank(ls, i) < Count(ls, ls[i])
  {
    CountStep(ls, i, ls[i]);
    CountMono(ls, i + 1, |ls|, ls[i]);
    assert ls[..|ls|] == ls;
  }

  /** The symbol of length `l` with rank `r`. */
  function Nth(ls: Lengths, l: nat, r: nat): (i: nat)
    requires r < Count(ls, l)
    ensures i < |ls| && ls[i] == l && Rank(ls, i) == r
  {
    var n := |ls| - 1;
    if ls[n] == l && Count(ls[..n], l) == r then n
    else
      var i := Nth(ls[..n], l, r);
      assert ls[..n][..i] == ls[..i];
      i
  }

  lemma RanksDiffer(ls: Lengths, i: nat, j: nat)
    requires i < j < |ls| && ls[i] == ls[j]
    ensures Rank(ls, i) < Rank(ls, j)
  {
    CountStep(ls, i, ls[i]);
    CountMono(ls, i + 1, j, ls[i]);
  }

  lemma NthRank(ls: Lengths, i: nat)
    requires i < |ls|
    ensures Rank(ls, i) < Count(ls, ls[i]) && Nth(ls, ls[i], Rank(ls, i)) == i
  {
    RankBelow(ls, i);
    var j := Nth(ls, ls[i], Rank(ls, i));
    if i < j {
      RanksDiffer(ls, i, j);
    } else if j < i {
      RanksDiffer(ls, j, i);
    }
  }

  lemma {:induction false} IndexMono(ls: Lengths, l: nat, m: nat)
    requires 1 <= l < m
    ensures Index(ls, l) + Count(ls, l) <= Index(ls, m)
  {
    if l + 1 < m {
      IndexMono(ls, l, m - 1);
    }
  }

  lemma {:induction false} IndexStep(ls: Lengths, i: nat, l: nat)
    requires i < |ls|
    ensures Index(ls[..i + 1], l) == Index(ls[..i], l) + if 1 <= ls[i] < l then 1 else 0
  {
    if l > 1 {
      IndexStep(ls, i, l - 1);
      CountStep(ls, i, l - 1);
    }
  }

  lemma {:induction false} IndexBound(ls: Lengths, i: nat, l: nat)
    requires i <= |ls|
    ensures Index(ls[..i], l) <= i
  {
    if i > 0 {
      IndexBound(ls, i - 1, l);
      IndexStep(ls, i - 1, l);
    } else {
      NoneIndexed(l);
    }
  }

  lemma {:induction false} NoneIndexed(l: nat)
    ensures Index([], l) == 0
  {
    if l > 1 {
      NoneIndexed(l - 1);
    }
  }

  // ---- the codes --------------------------------------------------------------------------------

  lemma {:induction false} KraftIs(ls: Lengths, l: nat)
    requires 1 <= l <= 15
    ensures (First(ls, l) + Count(ls, l)) * Pow2(15 - l) == Kraft(ls, l)
  {
    if l == 1 {
      assert Kraft(ls, 0) == 0;
    } else {
      KraftIs(ls, l - 1);
      Shifted(First(ls, l - 1) + Count(ls, l - 1), Count(ls, l), Pow2(15 - l));
    }
  }

  lemma Shifted(a: nat, c: nat, p: nat)
    ensures (2 * a + c) * p == a * (2 * p) + c * p
  {
  }

  lemma {:induction false} KraftMono(ls: Lengths, l: nat, m: nat)
    requires l <= m <= 15
    ensures Kraft(ls, l) <= Kraft(ls, m)
  {
    if l < m {
      KraftMono(ls, l, m - 1);
    }
  }

  lemma {:induction false} Pow2Sum(a: nat, b: nat)
    ensures Pow2(a + b) == Pow2(a) * Pow2(b)
  {
    if a > 0 {
      Pow2Sum(a - 1, b);
    }
  }

  lemma Cancel(a: nat, b: nat, p: nat)
    requires p > 0 && a * p <= b * p
    ensures a <= b
  {
    if a > b {
      BelowTimes(b, a, p, 0);
    }
  }

  lemma BelowTimes(q: nat, k: nat, p: nat, r: nat)
    requires q < k && r < p
    ensures q * p + r < k * p
  {
    AtLeast(k - q, p);
    assert k * p == q * p + (k - q) * p;
  }

  /** Without over-subscription every code fits its length. */
  lemma CodeFits(ls: Lengths, i: nat)
    requires KraftHolds(ls) && CodeLengths(ls) && i < |ls| && ls[i] != 0
    ensures Code(ls, i) < Pow2(ls[i])
  {
    hide Pow2, First, Count;
    var l := ls[i];
    KraftIs(ls, l);
    KraftMono(ls, l, 15);
    Pow2Sum(l, 15 - l);
    Cancel(First(ls, l) + Count(ls, l), Pow2(l), Pow2(15 - l));
    RankBelow(ls, i);
  }

  lemma {:induction false} FirstGrows(ls: Lengths, l: nat, m: nat)
    requires 1 <= l < m
    ensures First(ls, m) >= (First(ls, l) + Count(ls, l)) * Pow2(m - l)
  {
    var a, b := First(ls, l) + Count(ls, l), First(ls, m - 1) + Count(ls, m - 1);
    if l + 1 == m {
      assert Pow2(1) == 2;
    } else {
      FirstGrows(ls, l, m - 1);
      Shifted(0, a, Pow2(m - 1 - l));
      assert a * Pow2(m - l) == 2 * (a * Pow2(m - 1 - l)) by {
        Double(a, Pow2(m - 1 - l));
      }
    }
  }

  lemma QuotientAtLeast(x: nat, k: nat, p: nat)
    requires p > 0 && x >= k * p
    ensures x / p >= k
  {
    var q, r := Divided(x, p);
    if q < k {
      BelowTimes(q, k, p, r);
    }
  }

  /** Codes of one length go up by one from each symbol to the next. */
  lemma CodesFollow(ls: Lengths, i: nat, j: nat)
    requires i < j < |ls| && ls[i] == ls[j] && forall k :: i < k < j ==> ls[k] != ls[i]
    ensures Code(ls, j) == Code(ls, i) + 1
  {
    CountStep(ls, i, ls[i]);
    CountSkips(ls, i + 1, j, ls[i]);
  }

  lemma {:induction false} CountSkips(ls: Lengths, i: nat, j: nat, l: nat)
    requires i <= j <= |ls| && forall k :: i <= k < j ==> ls[k] != l
    ensures Count(ls[..j], l) == Count(ls[..i], l)
  {
    if i < j {
      CountSkips(ls, i, j - 1, l);
      CountStep(ls, j - 1, l);
    }
  }

  /** A shorter code, filled up with ones, is still below every longer one. */
  lemma ShorterBelow(ls: Lengths, i: nat, j: nat)
    requires i < |ls| && j < |ls| && 0 < ls[i] < ls[j]
    ensures (Code(ls, i) + 1) * Pow2(ls[j] - ls[i]) <= Code(ls, j)
  {
    hide First, Count, Pow2;
    RankBelow(ls, i);
    FirstGrows(ls, ls[i], ls[j]);
    Products(Code(ls, i) + 1, First(ls, ls[i]) + Count(ls, ls[i]), Pow2(ls[j] - ls[i]));
  }

  lemma Products(a: nat, b: nat, p: nat)
    requires a <= b
    ensures a * p <= b * p
  {
    assert b * p == a * p + (b - a) * p;
  }

  /** The shortest codes start at zero. */
  lemma {:induction false} FirstIsZero(ls: Lengths, l: nat)
    requires forall m :: 1 <= m < l ==> Count(ls, m) == 0
    ensures First(ls, l) == 0
  {
    hide Count;
    if l > 1 {
      FirstIsZero(ls, l - 1);
    }
  }

  // ---- decoding, on bits --------------------------------------------------------------------------

  /** Whether the code of length `l` in front of the reader is one of the table's. */
  function DecodeFrom(ls: Lengths, s: seq<Bit>, at: nat, l: nat): (r: Option<(nat, nat)>)
    requires 1 <= l
    ensures r.Some? ==> r.value.0 < |ls| && at < r.value.1 <= |s|
    decreases 16 - l
  {
    if l > 15 || at + l > |s| then None
    else
      var v := MsbVal(s[at..at + l]);
      if v < First(ls, l) then None
      else if v < First(ls, l) + Count(ls, l) then Some((Nth(ls, l, v - First(ls, l)), at + l))
      else DecodeFrom(ls, s, at, l + 1)
  }

  /** The symbol whose code stands at `at`, and the place behind it. */
  function DecodeSymbol(ls: Lengths, s: seq<Bit>, at: nat): (r: Option<(nat, nat)>)
    ensures r.Some? ==> r.value.0 < |ls| && at < r.value.1 <= |s|
  {
    DecodeFrom(ls, s, at, 1)
  }

  /** `bs` stands in `s` at `at`. */
  predicate Stands(s: seq<Bit>, at: nat, bs: seq<Bit>) {
    at + |bs| <= |s| && s[at..at + |bs|] == bs
  }

  lemma StandsParts(s: seq<Bit>, at: nat, a: seq<Bit>, b: seq<Bit>)
    requires Stands(s, at, a + b)
    ensures Stands(s, at, a) && Stands(s, at + |a|, b)
  {
    var whole := s[at..at + |a| + |b|];
    assert whole[..|a|] == a && whole[|a|..] == b;
    assert s[at..at + |a|] == whole[..|a|];
    assert s[at + |a|..at + |a| + |b|] == whole[|a|..];
  }

  lemma {:induction false} DecodeReaches(ls: Lengths, s: seq<Bit>, at: nat, i: nat, l: nat)
    requires CodeLengths(ls) && i < |ls| && 1 <= l <= ls[i] && Code(ls, i) < Pow2(ls[i]) &&
      Stands(s, at, CodeBits(ls, i))
    ensures DecodeFrom(ls, s, at, l) == Some((i, at + ls[i]))
    decreases ls[i] - l
  {
    hide First, Count, Pow2, MsbVal, MsbBits, Nth;
    var n, c := ls[i], Code(ls, i);
    var v := MsbVal(s[at..at + l]);
    assert s[at..at + l] == CodeBits(ls, i)[..l];
    MsbFront(c, n, l);
    MsbRoundTrip(c / Pow2(n - l), l);
    NthRank(ls, i);
    if l < n {
      FirstGrows(ls, l, n);
      QuotientAtLeast(c, First(ls, l) + Count(ls, l), Pow2(n - l));
      DecodeReaches(ls, s, at, i, l + 1);
    } else {
      NoShift(c);
    }
  }

  lemma NoShift(c: nat)
    ensures c / Pow2(0) == c
  {
  }

  /** Every symbol is decoded from its canonical code, which is consumed exactly. */
  lemma DecodesCanonical(ls: Lengths, s: seq<Bit>, at: nat, i: nat)
    requires CodeLengths(ls) && KraftHolds(ls) && i < |ls| && ls[i] != 0 && Stands(s, at, CodeBits(ls, i))
    ensures DecodeSymbol(ls, s, at) == Some((i, at + ls[i]))
  {
    CodeFits(ls, i);
    DecodeReaches(ls, s, at, i, 1);
  }

  /** No code is the front of another. */
  lemma PrefixFree(ls: Lengths, i: nat, j: nat)
    requires CodeLengths(ls) && KraftHolds(ls) && i < |ls| && j < |ls| && ls[i] != 0 && ls[j] != 0
    requires CodeBits(ls, i) <= CodeBits(ls, j)
    ensures i == j
  {
    hide CodeBits, KraftHolds, DecodeSymbol;
    var s := CodeBits(ls, j);
    assert s[0..|CodeBits(ls, i)|] == CodeBits(ls, i) && s[0..|s|] == s;
    DecodesCanonical(ls, s, 0, i);
    DecodesCanonical(ls, s, 0, j);
  }

  lemma {:induction false} DecodedFrom(ls: Lengths, s: seq<Bit>, at: nat, l: nat)
    requires 1 <= l && DecodeFrom(ls, s, at, l).Some?
    ensures var (i, end) := DecodeFrom(ls, s, at, l).value;
      1 <= ls[i] <= 15 && end == at + ls[i] && Stands(s, at, CodeBits(ls, i))
    decreases 16 - l
  {
    hide First, Count, MsbVal, MsbBits;
    var v := MsbVal(s[at..at + l]);
    MsbInverse(s[at..at + l]);
    if v >= First(ls, l) + Count(ls, l) {
      DecodedFrom(ls, s, at, l + 1);
    }
  }

  /** And from nothing else, whatever the lengths: a symbol comes out only where its canonical code stands. */
  lemma DecodedStood(ls: Lengths, s: seq<Bit>, at: nat)
    requires DecodeSymbol(ls, s, at).Some?
    ensures var (i, end) := DecodeSymbol(ls, s, at).value;
      1 <= ls[i] <= 15 && end == at + ls[i] && Stands(s, at, CodeBits(ls, i))
  {
    DecodedFrom(ls, s, at, 1);
  }

  // ---- the table --------------------------------------------------------------------------------

  /** Codes counted by length, and the symbols by (length, symbol). */
  datatype Huffman = Huffman(counts: seq<nat>, symbols: seq<nat>)

  function Place(ls: Lengths, i: nat): nat
    requires i < |ls|
  {
    Index(ls, ls[i]) + Rank(ls, i)
  }

  ghost predicate TableOf(h: Huffman, ls: Lengths) {
    && |h.counts| == 16 && |h.symbols| == |ls|
    && (forall l :: 1 <= l <= 15 ==> h.counts[l] == Count(ls, l))
    && (forall i :: 0 <= i < |ls| && ls[i] != 0 ==> Place(ls, i) < |ls| && h.symbols[Place(ls, i)] == i)
  }

  /** Places do not collide, and none is outside the table. */
  lemma PlacesDiffer(ls: Lengths, i: nat, j: nat)
    requires i < |ls| && j < |ls| && i != j && ls[i] != 0 && ls[j] != 0
    ensures Place(ls, i) != Place(ls, j)
  {
    hide Count, Index;
    RankBelow(ls, i);
    RankBelow(ls, j);
    if ls[i] == ls[j] {
      if i < j { RanksDiffer(ls, i, j); } else { RanksDiffer(ls, j, i); }
    } else if ls[i] < ls[j] {
      IndexMono(ls, ls[i], ls[j]);
    } else {
      IndexMono(ls, ls[j], ls[i]);
    }
  }

  lemma PlaceInTable(ls: Lengths, i: nat)
    requires i < |ls| && ls[i] != 0
    ensures Place(ls, i) < |ls|
  {
    hide Count, Index;
    RankBelow(ls, i);
    IndexMono(ls, ls[i], ls[i] + 1);
    IndexBound(ls, |ls|, ls[i] + 1);
    assert ls[..|ls|] == ls;
  }

  method CountLengths(ls: Lengths) returns (counts: seq<nat>)
    requires CodeLengths(ls)
    ensures |counts| == 16 && counts[0] == 0 && forall l :: 1 <= l <= 15 ==> counts[l] == Count(ls, l)
  {
    counts := seq(16, _ => 0);
    for i := 0 to |ls|
      invariant |counts| == 16 && forall l :: 0 <= l <= 15 ==> counts[l] == Count(ls[..i], l)
    {
      forall l | 0 <= l <= 15
        ensures Count(ls[..i + 1], l) == Count(ls[..i], l) + if ls[i] == l then 1 else 0
      {
        CountStep(ls, i, l);
      }
      counts := counts[ls[i] := counts[ls[i]] + 1];
    }
    assert ls[..|ls|] == ls;
    counts := counts[0 := 0];
  }

  method Offsets(ls: Lengths, counts: seq<nat>) returns (offs: seq<nat>)
    requires |counts| == 16 && forall l :: 1 <= l <= 15 ==> counts[l] == Count(ls, l)
    ensures |offs| == 16 && forall l :: 1 <= l <= 15 ==> offs[l] == Index(ls, l)
  {
    hide Count;
    offs := seq(16, _ => 0);
    var sum := 0;
    for l := 1 to 16
      invariant |offs| == 16 && sum == Index(ls, l) && forall m :: 1 <= m < l ==> offs[m] == Index(ls, m)
    {
      offs := offs[l := sum];
      sum := sum + counts[l];
    }
  }

  /** A counting sort: symbols by length, then by number. */
  method Build(ls: Lengths) returns (h: Huffman)
    requires CodeLengths(ls)
    ensures TableOf(h, ls)
  {
    hide Count, Index, Rank;
    var counts := CountLengths(ls);
    var offs := Offsets(ls, counts);
    var symbols: seq<nat> := seq(|ls|, _ => 0);
    RanksStart(ls);
    for i := 0 to |ls|
      invariant |symbols| == |ls| && |offs| == 16
      invariant forall l :: 1 <= l <= 15 ==> offs[l] == Index(ls, l) + Count(ls[..i], l)
      invariant forall j :: 0 <= j < i && ls[j] != 0 ==> Place(ls, j) < |ls| && symbols[Place(ls, j)] == j
    {
      forall l | 0 <= l <= 15
        ensures Count(ls[..i + 1], l) == Count(ls[..i], l) + if ls[i] == l then 1 else 0
      {
        CountStep(ls, i, l);
      }
      if ls[i] != 0 {
        PlaceInTable(ls, i);
        PlaceIs(ls, i);
        forall j | 0 <= j < i && ls[j] != 0
          ensures Place(ls, j) != Place(ls, i)
        {
          PlacesDiffer(ls, j, i);
        }
        symbols := symbols[offs[ls[i]] := i];
        offs := offs[ls[i] := offs[ls[i]] + 1];
      }
    }
    h := Huffman(counts, symbols);
  }

  lemma RanksStart(ls: Lengths)
    ensures forall l :: 1 <= l <= 15 ==> Count(ls[..0], l) == 0
  {
  }

  lemma PlaceIs(ls: Lengths, i: nat)
    requires i < |ls|
    ensures Place(ls, i) == Index(ls, ls[i]) + Count(ls[..i], ls[i])
  {
  }

  /** The decoder: the code grows bit by bit until it is one of its length's. The symbol index is always in range,
      even for over-subscribed lengths. */
  method Decode(h: Huffman, br: BitReader, ghost ls: Lengths) returns (r: Option<nat>)
    requires TableOf(h, ls) && br.Valid()
    modifies br
    ensures br.Valid()
    ensures r == match DecodeSymbol(ls, Stream(br.data), old(br.At())) case None => None case Some((i, _)) => Some(i)
    ensures r.Some? ==> br.At() == DecodeSymbol(ls, Stream(br.data), old(br.At())).value.1
  {
    hide Count, Index, Rank, Nth, Stream, BitReader.At, BitReader.Valid, First, MsbVal;
    var code: nat, first: nat, index: nat := 0, 0, 0;
    StartAtZero(ls);
    ghost var s, at := Stream(br.data), br.At();
    assert s[at..at] == [];
    for len := 1 to 16
      invariant br.Valid() && br.At() == at + len - 1 <= |s|
      invariant code == 2 * MsbVal(s[at..at + len - 1]) && first == First(ls, len) && index == Index(ls, len)
      invariant code >= first && DecodeSymbol(ls, s, at) == DecodeFrom(ls, s, at, len)
    {
      var b := br.NextBit();
      if b.None? { return None; }
      SliceStep(s, at, at + len - 1);
      MsbPush(s[at..at + len - 1], b.value);
      code := code + b.value;
      var count := h.counts[len];
      if code - first < count {
        NthPlace(h, ls, len, code - first);
        return Some(h.symbols[index + (code - first)]);
      }
      IndexNext(ls, len);
      index := index + count;
      first := first + count;
      first := 2 * first;
      code := 2 * code;
    }
    return None;
  }

  lemma SliceStep(s: seq<Bit>, a: nat, b: nat)
    requires a <= b < |s|
    ensures s[a..b + 1] == s[a..b] + [s[b]]
  {
  }

  lemma StartAtZero(ls: Lengths)
    ensures First(ls, 1) == 0 && Index(ls, 1) == 0 && MsbVal([]) == 0
  {
  }

  lemma IndexNext(ls: Lengths, l: nat)
    requires 1 <= l
    ensures Index(ls, l + 1) == Index(ls, l) + Count(ls, l)
    ensures First(ls, l + 1) == 2 * (First(ls, l) + Count(ls, l))
  {
  }

  lemma NthPlace(h: Huffman, ls: Lengths, l: nat, r: nat)
    requires TableOf(h, ls) && 1 <= l <= 15 && r < Count(ls, l)
    ensures Index(ls, l) + r < |h.symbols| && h.symbols[Index(ls, l) + r] == Nth(ls, l, r)
  {
    var i := Nth(ls, l, r);
    assert Place(ls, i) == Index(ls, l) + r;
  }
}
