/** Streams laid out as in section 3.2 of RFC 1951, and what inflating them returns. */
module Deflated {
  import opened Errors
  import opened Bytes
  import opened BitStream
  import opened Huffman
  import opened Inflate
  import opened DeflateTables

  // ---- what a compressor may write ---------------------------------------------------------------

  /** A literal, or a length and a distance. The length 258 has two spellings; `long` is the one without a symbol of
      its own, which no compressor need use. */
  datatype Piece = Lit(b: u8) | Match(length: nat, distance: nat, long: bool)

  /** Lengths a decoder can use: not over-subscribed. */
  predicate Usable(ls: Lengths) {
    CodeLengths(ls) && KraftHolds(ls)
  }

  predicate HasCode(ls: Lengths, i: nat) {
    i < |ls| && ls[i] != 0
  }

  predicate PieceOk(lit: Lengths, dist: Lengths, p: Piece) {
    match p
    case Lit(b) => HasCode(lit, b)
    case Match(length, distance, long) =>
      && 3 <= length <= 258 && 1 <= distance <= 32768 && (long ==> length == 258)
      && HasCode(lit, 257 + LengthSymbol(length, long)) && HasCode(dist, DistanceSymbol(distance))
  }

  function PieceBits(lit: Lengths, dist: Lengths, p: Piece): seq<Bit>
    requires PieceOk(lit, dist, p)
  {
    match p
    case Lit(b) => CodeBits(lit, b)
    case Match(length, distance, long) =>
      CodeBits(lit, 257 + LengthSymbol(length, long))
      + (LengthBits(length, long) + (CodeBits(dist, DistanceSymbol(distance)) + DistanceBits(distance)))
  }

  function Meaning(p: Piece): Token {
    match p
    case Lit(b) => Literal(b)
    case Match(length, distance, _) => Copy(length, distance)
  }

  /** No copy reaches back before the first byte. */
  predicate Reachable(out: seq<u8>, t: Token) {
    t.Copy? ==> 0 < t.distance <= |out|
  }

  function Expanded(out: seq<u8>, t: Token): seq<u8>
    requires Reachable(out, t)
  {
    match t
    case End => out
    case Literal(b) => out + [b]
    case Copy(n, d) => CopyOut(out, d, n)
  }

  predicate PiecesOk(lit: Lengths, dist: Lengths, out: seq<u8>, ps: seq<Piece>)
    decreases |ps|
  {
    ps == [] || (PieceOk(lit, dist, ps[0]) && Reachable(out, Meaning(ps[0]))
                 && PiecesOk(lit, dist, Expanded(out, Meaning(ps[0])), ps[1..]))
  }

  /** The LZ77 expansion of `ps` behind `out`. */
  function Expand(lit: Lengths, dist: Lengths, out: seq<u8>, ps: seq<Piece>): seq<u8>
    requires PiecesOk(lit, dist, out, ps)
    decreases |ps|
  {
    if ps == [] then out else Expand(lit, dist, Expanded(out, Meaning(ps[0])), ps[1..])
  }

  /** The pieces, then the end-of-block code. */
  function PiecesBits(lit: Lengths, dist: Lengths, out: seq<u8>, ps: seq<Piece>): seq<Bit>
    requires PiecesOk(lit, dist, out, ps) && HasCode(lit, 256)
    decreases |ps|
  {
    if ps == [] then CodeBits(lit, 256)
    else PieceBits(lit, dist, ps[0]) + PiecesBits(lit, dist, Expanded(out, Meaning(ps[0])), ps[1..])
  }

  // ---- code lengths of a dynamic block --------------------------------------------------------------

  function ItemSymbol(item: Item): nat {
    match item
    case Len(l) => l
    case Again(_) => 16
    case Zeros(n) => if n < 11 then 17 else 18
  }

  predicate ItemOk(cl: Lengths, acc: Lengths, item: Item) {
    && HasCode(cl, ItemSymbol(item)) && |cl| == 19
    && match item
       case Len(l) => l <= 15
       case Again(n) => acc != [] && 3 <= n <= 6
       case Zeros(n) => 3 <= n <= 138
  }

  function ItemBits(cl: Lengths, acc: Lengths, item: Item): seq<Bit>
    requires ItemOk(cl, acc, item)
  {
    CodeBits(cl, ItemSymbol(item)) +
    match item
    case Len(_) => []
    case Again(n) => LsbBits(n - 3, 2)
    case Zeros(n) => if n < 11 then LsbBits(n - 3, 3) else LsbBits(n - 11, 7)
  }

  function Grown(cl: Lengths, acc: Lengths, item: Item): (r: Lengths)
    requires ItemOk(cl, acc, item)
    ensures |acc| < |r|
  {
    acc + Adds(acc, item).value
  }

  /** The items give exactly the lengths `all`. */
  predicate ItemsOk(cl: Lengths, acc: Lengths, items: seq<Item>, all: Lengths)
    decreases |items|
  {
    if items == [] then acc == all
    else
      && ItemOk(cl, acc, items[0]) && |Grown(cl, acc, items[0])| <= |all|
      && ItemsOk(cl, Grown(cl, acc, items[0]), items[1..], all)
  }

  function ItemsBits(cl: Lengths, acc: Lengths, items: seq<Item>, all: Lengths): seq<Bit>
    requires ItemsOk(cl, acc, items, all)
    decreases |items|
  {
    if items == [] then [] else ItemBits(cl, acc, items[0]) + ItemsBits(cl, Grown(cl, acc, items[0]), items[1..], all)
  }

  /** The first `n` lengths of the code length code, in their order, from the `k`-th on. */
  function ClBits(cl: Lengths, k: nat, n: nat): seq<Bit>
    requires |cl| == 19 && k <= n <= 19
    decreases n - k
  {
    if k == n then [] else LsbBits(cl[SentAs(k)], 3) + ClBits(cl, k + 1, n)
  }

  /** Three bits hold each length, and those not sent are 0. */
  predicate ClOk(cl: Lengths, n: nat) {
    && |cl| == 19 && 4 <= n <= 19 && (forall i :: 0 <= i < 19 ==> cl[i] < 8)
    && forall k :: n <= k < 19 ==> cl[SentAs(k)] == 0
  }

  // ---- blocks -------------------------------------------------------------------------------------

  datatype Block =
    | Stored(bytes: seq<u8>)
    | Fixed(ps: seq<Piece>)
    | Dynamic(lit: Lengths, dist: Lengths, n: nat, cl: Lengths, items: seq<Item>, ps: seq<Piece>)

  predicate BlockOk(b: Block, out: seq<u8>) {
    match b
    case Stored(bytes) => |bytes| < 0x1_0000
    case Fixed(ps) => PiecesOk(FixedLit(), FixedDist(), out, ps)
    case Dynamic(lit, dist, n, cl, items, ps) =>
      && 257 <= |lit| <= 288 && 1 <= |dist| <= 32 && HasCode(lit, 256)
      && ClOk(cl, n) && ItemsOk(cl, [], items, lit + dist) && PiecesOk(lit, dist, out, ps)
  }

  /** No code of the block is over-subscribed. */
  predicate BlockUsable(b: Block) {
    b.Dynamic? ==> Usable(b.lit) && Usable(b.dist) && Usable(b.cl)
  }

  function BlockExpansion(b: Block, out: seq<u8>): seq<u8>
    requires BlockOk(b, out)
  {
    match b
    case Stored(bytes) => out + bytes
    case Fixed(ps) => Expand(FixedLit(), FixedDist(), out, ps)
    case Dynamic(lit, dist, _, _, _, ps) => Expand(lit, dist, out, ps)
  }

  /** The block type in the header. */
  function KindOf(b: Block): nat {
    match b case Stored(_) => 0 case Fixed(_) => 1 case Dynamic(_, _, _, _, _, _) => 2
  }

  function HeadOf(b: Block, final: bool): seq<Bit> {
    LsbBits((if final then 1 else 0) + 2 * KindOf(b), 3)
  }

  function DynamicHead(b: Block): seq<Bit>
    requires b.Dynamic? && ClOk(b.cl, b.n) && ItemsOk(b.cl, [], b.items, b.lit + b.dist) && |b.lit| >= 257 &&
      |b.dist| >= 1
  {
    LsbBits(|b.lit| - 257, 5)
    + (LsbBits(|b.dist| - 1, 5)
       + (LsbBits(b.n - 4, 4) + (ClBits(b.cl, 0, b.n) + ItemsBits(b.cl, [], b.items, b.lit + b.dist))))
  }

  /** A stored block starts on the next byte: the length in two bytes, two more that may be anything, and the bytes. */
  ghost predicate LaidStored(data: seq<u8>, p: nat, bytes: seq<u8>, end: nat)
    requires |bytes| < 0x1_0000
  {
    var q := (p + 7) / 8;
    && q + 4 + |bytes| <= |data| && data[q] == |bytes| % 256 && data[q + 1] == |bytes| / 256
    && data[q + 4..q + 4 + |bytes|] == bytes && end == 8 * (q + 4 + |bytes|)
  }

  ghost predicate LaidPieces(s: seq<Bit>, p: nat, lit: Lengths, dist: Lengths, out: seq<u8>, ps: seq<Piece>, end: nat)
    requires PiecesOk(lit, dist, out, ps) && HasCode(lit, 256)
  {
    Stands(s, p, PiecesBits(lit, dist, out, ps)) && end == p + |PiecesBits(lit, dist, out, ps)|
  }

  /** The block stands in the stream of `data` from bit `at` to bit `end`. */
  ghost predicate Laid(data: seq<u8>, at: nat, b: Block, final: bool, out: seq<u8>, end: nat)
    requires BlockOk(b, out)
  {
    && Stands(Stream(data), at, HeadOf(b, final))
    && match b
       case Stored(bytes) => LaidStored(data, at + 3, bytes, end)
       case Fixed(ps) =>
         FixedEnds();
         LaidPieces(Stream(data), at + 3, FixedLit(), FixedDist(), out, ps, end)
       case Dynamic(lit, dist, _, _, _, ps) =>
         && Stands(Stream(data), at + 3, DynamicHead(b))
         && LaidPieces(Stream(data), at + 3 + |DynamicHead(b)|, lit, dist, out, ps, end)
  }

  lemma FixedEnds()
    ensures HasCode(FixedLit(), 256)
  {
  }

  /** The blocks stand one behind the other, the last one marked final. */
  ghost predicate LaidOut(data: seq<u8>, at: nat, blocks: seq<Block>, out: seq<u8>)
    decreases |blocks|
  {
    && blocks != [] && BlockOk(blocks[0], out)
    && exists end ::
         && LaidFirst(data, at, blocks, out, end)
         && (|blocks| > 1 ==> LaidOut(data, end, blocks[1..], BlockExpansion(blocks[0], out)))
  }

  ghost predicate LaidFirst(data: seq<u8>, at: nat, blocks: seq<Block>, out: seq<u8>, end: nat)
    requires blocks != [] && BlockOk(blocks[0], out)
  {
    Laid(data, at, blocks[0], |blocks| == 1, out, end)
  }

  ghost predicate BlocksOk(blocks: seq<Block>, out: seq<u8>)
    decreases |blocks|
  {
    blocks == [] || (BlockOk(blocks[0], out) && BlocksOk(blocks[1..], BlockExpansion(blocks[0], out)))
  }

  ghost function ExpandAll(blocks: seq<Block>, out: seq<u8>): seq<u8>
    requires BlocksOk(blocks, out)
    decreases |blocks|
  {
    if blocks == [] then out else ExpandAll(blocks[1..], BlockExpansion(blocks[0], out))
  }

  // ---- reading back ---------------------------------------------------------------------------------

  lemma ReadsBack(s: seq<Bit>, at: nat, v: nat, n: nat)
    requires Stands(s, at, LsbBits(v, n)) && v < Pow2(n)
    ensures ReadBits(s, at, n) == Some((v, at + n))
  {
    LsbRoundTrip(v, n);
  }

  lemma StandsRead(s: seq<Bit>, at: nat, bs: seq<Bit>)
    requires Stands(s, at, bs)
    ensures ReadBits(s, at, |bs|) == Some((LsbVal(bs), at + |bs|))
  {
  }

  lemma PieceRead(lit: Lengths, dist: Lengths, s: seq<Bit>, at: nat, p: Piece)
    requires Usable(lit) && Usable(dist) && PieceOk(lit, dist, p) && Stands(s, at, PieceBits(lit, dist, p))
    ensures NextToken(lit, dist, s, at) == Some((Meaning(p), at + |PieceBits(lit, dist, p)|))
  {
    hide NextToken, CodeBits, Stands, Usable, HasCode, LengthSymbol, LengthBits, DistanceSymbol, DistanceBits;
    match p
    case Lit(b) => LitRead(lit, dist, s, at, b);
    case Match(length, distance, long) => MatchPieceRead(lit, dist, s, at, length, distance, long);
  }

  lemma MatchPieceRead(lit: Lengths, dist: Lengths, s: seq<Bit>, at: nat, length: nat, distance: nat, long: bool)
    requires Usable(lit) && Usable(dist) && PieceOk(lit, dist, Match(length, distance, long))
    requires Stands(s, at, PieceBits(lit, dist, Match(length, distance, long)))
    ensures NextToken(lit, dist, s, at)
      == Some((Copy(length, distance), at + |PieceBits(lit, dist, Match(length, distance, long))|))
  {
    hide CodeBits, Stands, Usable, LenBase, LenExtra, DistBase, DistExtra, LengthSymbol, LengthBits, DistanceSymbol,
      DistanceBits, LsbVal, NextToken, HasCode;
    LengthSpelt(length, long);
    DistanceSpelt(distance);
    MatchRead(lit, dist, s, at, LengthSymbol(length, long), LengthBits(length, long), DistanceSymbol(distance),
      DistanceBits(distance));
  }

  lemma LitRead(lit: Lengths, dist: Lengths, s: seq<Bit>, at: nat, b: u8)
    requires Usable(lit) && HasCode(lit, b) && Stands(s, at, CodeBits(lit, b))
    ensures NextToken(lit, dist, s, at) == Some((Literal(b), at + lit[b]))
  {
    hide DecodeSymbol, CodeBits, KraftHolds, Stands;
    DecodesCanonical(lit, s, at, b);
  }

  lemma FourParts(s: seq<Bit>, at: nat, a: seq<Bit>, b: seq<Bit>, c: seq<Bit>, e: seq<Bit>)
    requires Stands(s, at, a + (b + (c + e)))
    ensures Stands(s, at, a) && Stands(s, at + |a|, b)
    ensures Stands(s, at + |a| + |b|, c) && Stands(s, at + |a| + |b| + |c|, e)
  {
    hide Stands;
    StandsParts(s, at, a, b + (c + e));
    StandsParts(s, at + |a|, b, c + e);
    StandsParts(s, at + |a| + |b|, c, e);
  }

  /** A length and a distance read one part after another. */
  lemma MatchRead(lit: Lengths, dist: Lengths, s: seq<Bit>, at: nat, k: nat, b: seq<Bit>, d: nat, e: seq<Bit>)
    requires Usable(lit) && Usable(dist) && HasCode(lit, 257 + k) && HasCode(dist, d)
    requires k < 29 && |b| == LenExtra()[k] && d < 30 && |e| == DistExtra()[d]
    requires Stands(s, at, CodeBits(lit, 257 + k) + (b + (CodeBits(dist, d) + e)))
    ensures NextToken(lit, dist, s, at)
      == Some((Copy(LenBase()[k] + LsbVal(b), DistBase()[d] + LsbVal(e)), at + lit[257 + k] + |b| + dist[d] + |e|))
  {
    hide DecodeSymbol, CodeBits, ReadBits, Stands, KraftHolds, LenBase, LenExtra, DistBase, DistExtra, LsbVal, Pow2,
      NextToken, NextCopy, CodeLengths;
    var a, c := CodeBits(lit, 257 + k), CodeBits(dist, d);
    FourParts(s, at, a, b, c, e);
    DecodesCanonical(lit, s, at, 257 + k);
    StandsRead(s, at + |a|, b);
    DecodesCanonical(dist, s, at + |a| + |b|, d);
    StandsRead(s, at + |a| + |b| + |c|, e);
    CopyRead(dist, s, at + |a| + |b|, LenBase()[k] + LsbVal(b), d, e);
    LengthRead(lit, dist, s, at, k, b);
  }

  lemma CopyRead(dist: Lengths, s: seq<Bit>, at: nat, length: nat, d: nat, e: seq<Bit>)
    requires d < 30 && |e| == DistExtra()[d] && d < |dist| && DecodeSymbol(dist, s, at) == Some((d, at + dist[d]))
    requires ReadBits(s, at + dist[d], |e|) == Some((LsbVal(e), at + dist[d] + |e|))
    ensures NextCopy(dist, s, at, length) == Some((Copy(length, DistBase()[d] + LsbVal(e)), at + dist[d] + |e|))
  {
    hide DecodeSymbol, ReadBits, DistBase, DistExtra, LsbVal;
  }

  lemma LengthRead(lit: Lengths, dist: Lengths, s: seq<Bit>, at: nat, k: nat, b: seq<Bit>)
    requires k < 29 && |b| == LenExtra()[k] && 257 + k < |lit|
    requires DecodeSymbol(lit, s, at) == Some((257 + k, at + lit[257 + k]))
    requires ReadBits(s, at + lit[257 + k], |b|) == Some((LsbVal(b), at + lit[257 + k] + |b|))
    ensures NextToken(lit, dist, s, at) == NextCopy(dist, s, at + lit[257 + k] + |b|, LenBase()[k] + LsbVal(b))
  {
    hide DecodeSymbol, ReadBits, LenBase, LenExtra, LsbVal, NextCopy;
  }

  lemma EndRead(lit: Lengths, dist: Lengths, s: seq<Bit>, at: nat)
    requires Usable(lit) && HasCode(lit, 256) && Stands(s, at, CodeBits(lit, 256))
    ensures NextToken(lit, dist, s, at) == Some((End, at + |CodeBits(lit, 256)|))
  {
    DecodesCanonical(lit, s, at, 256);
  }

  /** Pieces in a block's codes expand to their LZ77 expansion, and the reader stops behind the end-of-block code. */
  lemma {:induction false} BlockRead(lit: Lengths, dist: Lengths, s: seq<Bit>, at: nat, out: seq<u8>, ps: seq<Piece>)
    requires Usable(lit) && Usable(dist) && HasCode(lit, 256) && PiecesOk(lit, dist, out, ps)
    requires Stands(s, at, PiecesBits(lit, dist, out, ps))
    ensures BlockFrom(lit, dist, s, at, out)
      == Some((Expand(lit, dist, out, ps), at + |PiecesBits(lit, dist, out, ps)|))
    decreases |ps|
  {
    hide NextToken, CodeBits, KraftHolds, PieceBits, CopyOut, LengthSymbol, DistanceSymbol, Stands;
    if ps == [] {
      EndRead(lit, dist, s, at);
    } else {
      var a, next := PieceBits(lit, dist, ps[0]), Expanded(out, Meaning(ps[0]));
      StandsParts(s, at, a, PiecesBits(lit, dist, next, ps[1..]));
      PieceRead(lit, dist, s, at, ps[0]);
      BlockRead(lit, dist, s, at + |a|, next, ps[1..]);
    }
  }

  lemma ItemRead(cl: Lengths, s: seq<Bit>, at: nat, acc: Lengths, item: Item)
    requires Usable(cl) && ItemOk(cl, acc, item) && Stands(s, at, ItemBits(cl, acc, item))
    ensures NextItem(cl, s, at) == Some((item, at + |ItemBits(cl, acc, item)|))
  {
    hide DecodeSymbol, CodeBits, ReadBits, Stands, KraftHolds, LsbBits;
    var sym := ItemSymbol(item);
    var extra := ItemBits(cl, acc, item)[cl[sym]..];
    assert ItemBits(cl, acc, item) == CodeBits(cl, sym) + extra;
    StandsParts(s, at, CodeBits(cl, sym), extra);
    DecodesCanonical(cl, s, at, sym);
    assert Pow2(2) == 4 && Pow2(3) == 8;
    Pow2Sum(3, 4);
    match item
    case Len(_) =>
    case Again(n) =>
      assert extra == LsbBits(n - 3, 2);
      ReadsBack(s, at + cl[sym], n - 3, 2);
    case Zeros(n) =>
      assert extra == if n < 11 then LsbBits(n - 3, 3) else LsbBits(n - 11, 7);
      if n < 11 {
        ReadsBack(s, at + cl[sym], n - 3, 3);
      } else {
        ReadsBack(s, at + cl[sym], n - 11, 7);
      }
  }

  lemma {:induction false} ItemsRead(cl: Lengths, s: seq<Bit>, at: nat, acc: Lengths, items: seq<Item>, all: Lengths)
    requires Usable(cl) && ItemsOk(cl, acc, items, all) && Stands(s, at, ItemsBits(cl, acc, items, all))
    ensures LengthsFrom(cl, s, at, |all|, acc) == Some((all, at + |ItemsBits(cl, acc, items, all)|))
    decreases |items|
  {
    hide NextItem, Stands, KraftHolds, ItemBits, CodeLengths;
    if items != [] {
      var a, next := ItemBits(cl, acc, items[0]), Grown(cl, acc, items[0]);
      StandsParts(s, at, a, ItemsBits(cl, next, items[1..], all));
      ItemRead(cl, s, at, acc, items[0]);
      ItemsGrow(cl, next, items[1..], all);
      ItemsRead(cl, s, at + |a|, next, items[1..], all);
    }
  }

  lemma {:induction false} ItemsGrow(cl: Lengths, acc: Lengths, items: seq<Item>, all: Lengths)
    requires ItemsOk(cl, acc, items, all)
    ensures |acc| <= |all|
    decreases |items|
  {
  }

  /** `cl` with only the lengths sent so far. */
  ghost function Sent(cl: Lengths, k: nat): (r: Lengths)
    requires |cl| == 19 && k <= 19
    ensures |r| == 19
  {
    if k == 0 then Repeated(0, 19) else Sent(cl, k - 1)[SentAs(k - 1) := cl[SentAs(k - 1)]]
  }

  lemma {:induction false} SentAt(cl: Lengths, k: nat, i: nat)
    requires |cl| == 19 && k <= 19 && i < 19
    ensures Sent(cl, k)[i] == if exists m :: 0 <= m < k && SentAs(m) == i then cl[i] else 0
  {
    if k > 0 {
      SentAt(cl, k - 1, i);
      if SentAs(k - 1) != i {
        assert (exists m :: 0 <= m < k && SentAs(m) == i) <==> (exists m :: 0 <= m < k - 1 && SentAs(m) == i);
      }
    }
  }

  lemma AllSent(cl: Lengths, n: nat)
    requires |cl| == 19 && n <= 19 && forall k :: n <= k < 19 ==> cl[SentAs(k)] == 0
    ensures Sent(cl, n) == cl
  {
    hide SentAs, Sent;
    forall i | 0 <= i < 19
      ensures Sent(cl, n)[i] == cl[i]
    {
      SentAt(cl, n, i);
      var m := SentSome(i);
      if m >= n {
        assert cl[SentAs(m)] == 0;
      }
    }
  }

  lemma {:induction false} ClRead(s: seq<Bit>, at: nat, cl: Lengths, k: nat, n: nat)
    requires |cl| == 19 && k <= n <= 19 && (forall i :: 0 <= i < 19 ==> cl[i] < 8) && Stands(s, at, ClBits(cl, k, n))
    ensures |ClBits(cl, k, n)| == 3 * (n - k)
    ensures ClFrom(s, at, k, n, Sent(cl, k)) == Some((Sent(cl, n), at + 3 * (n - k)))
    decreases n - k
  {
    hide Order, SentAs, LsbBits, Stands, ReadBits, CodeLengths;
    if k < n {
      OrderTable(k);
      var a := LsbBits(cl[SentAs(k)], 3);
      StandsParts(s, at, a, ClBits(cl, k + 1, n));
      assert Pow2(3) == 8;
      ReadsBack(s, at, cl[SentAs(k)], 3);
      ClRead(s, at + 3, cl, k + 1, n);
    }
  }

  lemma DynamicRead(s: seq<Bit>, at: nat, b: Block)
    requires b.Dynamic? && 257 <= |b.lit| <= 288 && 1 <= |b.dist| <= 32 && ClOk(b.cl, b.n) && Usable(b.cl)
    requires ItemsOk(b.cl, [], b.items, b.lit + b.dist) && Stands(s, at, DynamicHead(b))
    ensures DynamicFrom(s, at) == Some((Codes(b.lit, b.dist), at + |DynamicHead(b)|))
  {
    hide Stands, ReadBits, LsbBits, ClFrom, LengthsFrom, ItemsOk, Usable, Order, SentAs, CodeLengths, ClBits, Pow2;
    var x, y, z := LsbBits(|b.lit| - 257, 5), LsbBits(|b.dist| - 1, 5), LsbBits(b.n - 4, 4);
    var c, i := ClBits(b.cl, 0, b.n), ItemsBits(b.cl, [], b.items, b.lit + b.dist);
    StandsParts(s, at, x, y + (z + (c + i)));
    StandsParts(s, at + 5, y, z + (c + i));
    StandsParts(s, at + 10, z, c + i);
    StandsParts(s, at + 14, c, i);
    SmallPowers();
    ReadsBack(s, at, |b.lit| - 257, 5);
    ReadsBack(s, at + 5, |b.dist| - 1, 5);
    ReadsBack(s, at + 10, b.n - 4, 4);
    ClRead(s, at + 14, b.cl, 0, b.n);
    NoneSent(b.cl);
    AllSent(b.cl, b.n);
    ItemsRead(b.cl, s, at + 14 + |c|, [], b.items, b.lit + b.dist);
    var all := b.lit + b.dist;
    assert all[..|b.lit|] == b.lit && all[|b.lit|..] == b.dist;
  }

  lemma NoneSent(cl: Lengths)
    requires |cl| == 19
    ensures Sent(cl, 0) == Repeated(0, 19)
  {
  }

  lemma SmallPowers()
    ensures Pow2(3) == 8 && Pow2(4) == 16 && Pow2(5) == 32
  {
    assert Pow2(2) == 4;
    assert Pow2(4) == 4 * Pow2(2);
  }

  // ---- the fixed codes --------------------------------------------------------------------------

  ghost function Least(a: nat, b: nat): nat { if a < b then a else b }

  lemma {:induction false} FixedCounts(i: nat)
    requires i <= 288
    ensures Count(FixedLit()[..i], 8) == Least(i, 144) + (if i > 280 then i - 280 else 0)
    ensures Count(FixedLit()[..i], 9) == if i > 144 then Least(i, 256) - 144 else 0
    ensures Count(FixedLit()[..i], 7) == if i > 256 then Least(i, 280) - 256 else 0
    ensures forall l: nat :: l !in [7, 8, 9] ==> Count(FixedLit()[..i], l) == 0
  {
    if i > 0 {
      FixedCounts(i - 1);
      forall l: nat
        ensures Count(FixedLit()[..i], l) == Count(FixedLit()[..i - 1], l) + if FixedLit()[i - 1] == l then 1 else 0
      {
        CountStep(FixedLit(), i - 1, l);
      }
    }
  }

  /** The fixed codes as section 3.2.6 of RFC 1951 lists them. */
  lemma FixedCodes(i: nat)
    requires i < 288
    ensures 0 <= i <= 143 ==> FixedLit()[i] == 8 && Code(FixedLit(), i) == 48 + i
    ensures 144 <= i <= 255 ==> FixedLit()[i] == 9 && Code(FixedLit(), i) == 400 + (i - 144)
    ensures 256 <= i <= 279 ==> FixedLit()[i] == 7 && Code(FixedLit(), i) == i - 256
    ensures 280 <= i <= 287 ==> FixedLit()[i] == 8 && Code(FixedLit(), i) == 192 + (i - 280)
  {
    hide Count, First;
    FixedCounts(i);
    FixedFirsts();
  }

  lemma FixedFirsts()
    ensures First(FixedLit(), 7) == 0 && First(FixedLit(), 8) == 48 && First(FixedLit(), 9) == 400
  {
    hide Count, FixedLit;
    var ls := FixedLit();
    FixedCounts(288);
    assert ls[..288] == ls;
    FirstIsZero(ls, 7);
    FirstNext(ls, 8);
    FirstNext(ls, 9);
  }

  lemma FirstNext(ls: Lengths, l: nat)
    requires l > 1
    ensures First(ls, l) == 2 * (First(ls, l - 1) + Count(ls, l - 1))
  {
  }

  /** All 32 fixed distance codes are their symbols in five bits. */
  lemma FixedDistances(d: nat)
    requires d < 32
    ensures FixedDist()[d] == 5 && Code(FixedDist(), d) == d
  {
    hide Count, First;
    forall l: nat
      ensures Count(FixedDist(), l) == if l == 5 then 32 else 0
    {
      EvenCounts(32, 5, l);
    }
    FirstIsZero(FixedDist(), 5);
    assert FixedDist()[..d] == Repeated(5, d);
    EvenCounts(d, 5, 5);
  }

  lemma {:induction false} EvenCounts(n: nat, v: nat, l: nat)
    ensures Count(Repeated(v, n), l) == if l == v then n else 0
  {
    if n > 0 {
      EvenCounts(n - 1, v, l);
      assert Repeated(v, n)[..n - 1] == Repeated(v, n - 1);
    }
  }

  lemma KraftStep(ls: Lengths, l: nat)
    requires 1 <= l <= 15
    ensures Kraft(ls, l) == Kraft(ls, l - 1) + Count(ls, l) * Pow2(15 - l)
  {
  }

  lemma {:induction false} KraftSkips(ls: Lengths, l: nat, m: nat)
    requires l <= m <= 15 && forall k :: l < k <= m ==> Count(ls, k) == 0
    ensures Kraft(ls, m) == Kraft(ls, l)
  {
    hide Count, Pow2;
    if l < m {
      KraftSkips(ls, l, m - 1);
    }
  }

  lemma Pow2Table()
    ensures Pow2(6) == 64 && Pow2(7) == 128 && Pow2(8) == 256 && Pow2(10) == 1024 && Pow2(15) == 32768
  {
    SmallPowers();
    Pow2Sum(3, 3);
    Pow2Sum(3, 4);
    Pow2Sum(4, 4);
    Pow2Sum(5, 5);
    Pow2Sum(5, 10);
  }

  /** The fixed literal code uses up the code space exactly. */
  lemma FixedLitUsable()
    ensures Usable(FixedLit()) && Kraft(FixedLit(), 15) == Pow2(15)
  {
    hide Count, Pow2, Kraft, FixedLit;
    var ls := FixedLit();
    FixedCounts(288);
    assert ls[..288] == ls;
    KraftSkips(ls, 0, 6);
    KraftStep(ls, 7);
    KraftStep(ls, 8);
    KraftStep(ls, 9);
    KraftSkips(ls, 9, 15);
    Pow2Table();
    NoKraft(ls);
  }

  lemma NoKraft(ls: Lengths)
    ensures Kraft(ls, 0) == 0
  {
  }

  lemma FixedDistUsable()
    ensures Usable(FixedDist()) && Kraft(FixedDist(), 15) == Pow2(15)
  {
    hide Count, Pow2, Kraft;
    var ls := FixedDist();
    forall l: nat
      ensures Count(ls, l) == if l == 5 then 32 else 0
    {
      EvenCounts(32, 5, l);
    }
    KraftSkips(ls, 0, 4);
    KraftStep(ls, 5);
    KraftSkips(ls, 5, 15);
    Pow2Table();
    NoKraft(ls);
  }

  // ---- whole streams ---------------------------------------------------------------------------

  lemma StoredRead(data: seq<u8>, p: nat, bytes: seq<u8>, out: seq<u8>, end: nat)
    requires |bytes| < 0x1_0000 && LaidStored(data, p, bytes, end)
    ensures BodyFrom(data, 0, p, out) == Some((out + bytes, end))
  {
    hide BlockFrom, DynamicFrom, Stream;
    var q := AlignUp(p) / 8;
    Aligned(p);
    TwoBytes(data[q..q + 2]);
    assert StoredFrom(data, q) == Some((bytes, q + 4 + |bytes|));
  }

  lemma Aligned(p: nat)
    ensures AlignUp(p) / 8 == (p + 7) / 8
  {
  }

  lemma TwoBytes(b: seq<u8>)
    requires |b| == 2
    ensures FromLe(b) == b[0] as int + 256 * b[1] as int
  {
    assert b[1..][1..] == [];
    assert FromLe(b[1..]) == b[1];
  }

  lemma FixedBody(data: seq<u8>, p: nat, out: seq<u8>)
    ensures BodyFrom(data, 1, p, out) == BlockFrom(FixedLit(), FixedDist(), Stream(data), p, out)
  {
    hide BlockFrom, DynamicFrom, Stream, StoredFrom, FixedLit, FixedDist;
  }

  lemma LaidRead(s: seq<Bit>, p: nat, lit: Lengths, dist: Lengths, out: seq<u8>, ps: seq<Piece>, end: nat)
    requires Usable(lit) && Usable(dist) && PiecesOk(lit, dist, out, ps) && HasCode(lit, 256)
    requires LaidPieces(s, p, lit, dist, out, ps, end)
    ensures BlockFrom(lit, dist, s, p, out) == Some((Expand(lit, dist, out, ps), end))
  {
    hide BlockFrom, PiecesOk, PiecesBits, Expand, Usable, HasCode, Stands;
    BlockRead(lit, dist, s, p, out, ps);
  }

  lemma FixedRead(data: seq<u8>, p: nat, ps: seq<Piece>, out: seq<u8>, end: nat)
    requires HasCode(FixedLit(), 256) && PiecesOk(FixedLit(), FixedDist(), out, ps)
    requires LaidPieces(Stream(data), p, FixedLit(), FixedDist(), out, ps, end)
    ensures BodyFrom(data, 1, p, out) == Some((Expand(FixedLit(), FixedDist(), out, ps), end))
  {
    hide BodyFrom, BlockFrom, Stream, FixedLit, FixedDist, PiecesOk, LaidPieces, Expand, Usable, HasCode;
    FixedLitUsable();
    FixedDistUsable();
    FixedBody(data, p, out);
    LaidRead(Stream(data), p, FixedLit(), FixedDist(), out, ps, end);
  }

  lemma DynamicBlockRead(data: seq<u8>, p: nat, b: Block, out: seq<u8>, end: nat)
    requires b.Dynamic? && BlockOk(b, out) && BlockUsable(b) && Stands(Stream(data), p, DynamicHead(b))
    requires LaidPieces(Stream(data), p + |DynamicHead(b)|, b.lit, b.dist, out, b.ps, end)
    ensures BodyFrom(data, 2, p, out) == Some((Expand(b.lit, b.dist, out, b.ps), end))
  {
    hide BlockFrom, DynamicFrom, Stream, StoredFrom, Stands, DynamicHead, ItemsOk, ClOk, PiecesOk, LaidPieces, Expand,
      Usable, HasCode;
    DynamicRead(Stream(data), p, b);
    LaidRead(Stream(data), p + |DynamicHead(b)|, b.lit, b.dist, out, b.ps, end);
  }

  lemma BodyRead(data: seq<u8>, at: nat, b: Block, final: bool, out: seq<u8>, end: nat)
    requires BlockOk(b, out) && BlockUsable(b) && Laid(data, at, b, final, out, end)
    ensures BodyFrom(data, KindOf(b), at + 3, out) == Some((BlockExpansion(b, out), end))
  {
    hide Stands, Stream, FixedLit, FixedDist, BodyFrom, PiecesOk, PiecesBits, Expand, DynamicHead, ClOk, ItemsOk,
      LaidPieces, LaidStored, Usable, HasCode;
    match b
    case Stored(bytes) => StoredRead(data, at + 3, bytes, out, end);
    case Fixed(ps) =>
      FixedEnds();
      FixedRead(data, at + 3, ps, out, end);
    case Dynamic(_, _, _, _, _, _) => DynamicBlockRead(data, at + 3, b, out, end);
  }

  /** One block of a stream: what it adds, and where the next one stands. */
  lemma BlockStep(data: seq<u8>, at: nat, b: Block, final: bool, out: seq<u8>, end: nat)
    requires BlockOk(b, out) && BlockUsable(b) && Laid(data, at, b, final, out, end)
    ensures InflateFrom(data, at, out)
      == if final then Some(BlockExpansion(b, out)) else InflateFrom(data, end, BlockExpansion(b, out))
  {
    hide Stands, Stream, BodyFrom, BlockExpansion, BlockOk, BlockUsable, Laid, LsbBits, ReadBits;
    var v := (if final then 1 else 0) + 2 * KindOf(b);
    SmallPowers();
    LaidHead(data, at, b, final, out, end);
    ReadsBack(Stream(data), at, v, 3);
    BodyRead(data, at, b, final, out, end);
  }

  lemma LaidHead(data: seq<u8>, at: nat, b: Block, final: bool, out: seq<u8>, end: nat)
    requires BlockOk(b, out) && Laid(data, at, b, final, out, end)
    ensures Stands(Stream(data), at, LsbBits((if final then 1 else 0) + 2 * KindOf(b), 3))
  {
    hide Stream, Stands, BlockOk;
  }

  /** Inflating any sequence of stored, fixed and dynamic blocks returns exactly their LZ77 expansion. */
  lemma {:induction false} InflateCorrect(data: seq<u8>, at: nat, blocks: seq<Block>, out: seq<u8>)
    requires LaidOut(data, at, blocks, out) && forall b :: b in blocks ==> BlockUsable(b)
    ensures BlocksOk(blocks, out) && InflateFrom(data, at, out) == Some(ExpandAll(blocks, out))
    decreases |blocks|
  {
    hide Laid, BlockOk, BlockUsable, BlockExpansion, InflateFrom;
    var end :|
      && LaidFirst(data, at, blocks, out, end)
      && (|blocks| > 1 ==> LaidOut(data, end, blocks[1..], BlockExpansion(blocks[0], out)));
    BlockStep(data, at, blocks[0], |blocks| == 1, out, end);
    if |blocks| > 1 {
      InflateCorrect(data, end, blocks[1..], BlockExpansion(blocks[0], out));
    }
  }
}
