/** The decoder accepts nothing but streams laid out as `Deflated` says. */
module InflateSound {
  import opened Errors
  import opened Bytes
  import opened BitStream
  import opened Huffman
  import opened Inflate
  import opened DeflateTables
  import opened Deflated

  lemma BitsStood(s: seq<Bit>, at: nat, n: nat)
    requires ReadBits(s, at, n).Some?
    ensures var (v, end) := ReadBits(s, at, n).value;
      v < Pow2(n) && end == at + n && Stands(s, at, LsbBits(v, n))
  {
    LsbInverse(s[at..at + n]);
    LsbBound(s[at..at + n]);
  }

  lemma Join(s: seq<Bit>, at: nat, a: seq<Bit>, b: seq<Bit>)
    requires Stands(s, at, a) && Stands(s, at + |a|, b)
    ensures Stands(s, at, a + b)
  {
    assert s[at..at + |a + b|] == s[at..at + |a|] + s[at + |a|..at + |a| + |b|];
  }

  // ---- pieces -------------------------------------------------------------------------------------

  ghost predicate PieceStood(lit: Lengths, dist: Lengths, s: seq<Bit>, at: nat, p: Piece, t: Token, end: nat) {
    && PieceOk(lit, dist, p) && Meaning(p) == t
    && Stands(s, at, PieceBits(lit, dist, p)) && end == at + |PieceBits(lit, dist, p)|
  }

  ghost predicate EndStood(lit: Lengths, s: seq<Bit>, at: nat, end: nat) {
    HasCode(lit, 256) && Stands(s, at, CodeBits(lit, 256)) && end == at + |CodeBits(lit, 256)|
  }

  /** A symbol that stands for a length, its extra bits, a symbol for a distance and its extra bits are a match. */
  lemma MatchStood(lit: Lengths, dist: Lengths, s: seq<Bit>, at: nat, k: nat, x: nat, d: nat, y: nat) returns (p: Piece)
    requires k < 29 && x < Pow2(LenExtra()[k]) && HasCode(lit, 257 + k)
    requires d < 30 && y < Pow2(DistExtra()[d]) && HasCode(dist, d)
    requires var a, b, c, e := CodeBits(lit, 257 + k), LsbBits(x, LenExtra()[k]), CodeBits(dist, d),
      LsbBits(y, DistExtra()[d]);
      && Stands(s, at, a) && Stands(s, at + |a|, b)
      && Stands(s, at + |a| + |b|, c) && Stands(s, at + |a| + |b| + |c|, e)
    ensures PieceStood(lit, dist, s, at, p, Copy(LenBase()[k] + x, DistBase()[d] + y),
      at + lit[257 + k] + LenExtra()[k] + dist[d] + DistExtra()[d])
  {
    hide CodeBits, Stands, LenBase, LenExtra, DistBase, DistExtra, LengthSymbol, LengthBits, DistanceSymbol,
      DistanceBits, LsbBits, Pow2;
    var a, b, c, e := CodeBits(lit, 257 + k), LsbBits(x, LenExtra()[k]), CodeBits(dist, d), LsbBits(y, DistExtra()[d]);
    var long := SpeltLength(k, x);
    SpeltDistance(d, y);
    p := Match(LenBase()[k] + x, DistBase()[d] + y, long);
    FourJoin(s, at, a, b, c, e);
  }

  lemma FourJoin(s: seq<Bit>, at: nat, a: seq<Bit>, b: seq<Bit>, c: seq<Bit>, e: seq<Bit>)
    requires Stands(s, at, a) && Stands(s, at + |a|, b)
    requires Stands(s, at + |a| + |b|, c) && Stands(s, at + |a| + |b| + |c|, e)
    ensures Stands(s, at, a + (b + (c + e)))
  {
    hide Stands;
    Join(s, at + |a| + |b|, c, e);
    Join(s, at + |a|, b, c + e);
    Join(s, at, a, b + (c + e));
  }

  /** Whatever token comes out, it was written there. */
  lemma TokenStood(lit: Lengths, dist: Lengths, s: seq<Bit>, at: nat) returns (p: Piece)
    requires NextToken(lit, dist, s, at).Some?
    ensures var (t, end) := NextToken(lit, dist, s, at).value;
      if t.End? then EndStood(lit, s, at, end) else PieceStood(lit, dist, s, at, p, t, end)
  {
    hide DecodeSymbol, CodeBits, ReadBits, Stands, LenBase, LenExtra, DistBase, DistExtra, LengthSymbol, LengthBits,
      DistanceSymbol, DistanceBits, LsbBits, Pow2;
    DecodedStood(lit, s, at);
    var (sym, q) := DecodeSymbol(lit, s, at).value;
    if sym < 256 {
      p := Lit(sym);
    } else if sym == 256 {
      p := Lit(0);
    } else {
      var k := sym - 257;
      BitsStood(s, q, LenExtra()[k]);
      var (x, r) := ReadBits(s, q, LenExtra()[k]).value;
      DecodedStood(dist, s, r);
      var (d, u) := DecodeSymbol(dist, s, r).value;
      BitsStood(s, u, DistExtra()[d]);
      p := MatchStood(lit, dist, s, at, k, x, d, ReadBits(s, u, DistExtra()[d]).value.0);
    }
  }

  ghost predicate PiecesStood(lit: Lengths, dist: Lengths, s: seq<Bit>, at: nat, out: seq<u8>, ps: seq<Piece>,
                              o: seq<u8>, end: nat) {
    && PiecesOk(lit, dist, out, ps) && HasCode(lit, 256)
    && LaidPieces(s, at, lit, dist, out, ps, end) && o == Expand(lit, dist, out, ps)
  }

  lemma {:induction false} BlockStood(lit: Lengths, dist: Lengths, s: seq<Bit>, at: nat, out: seq<u8>)
    returns (ps: seq<Piece>)
    requires BlockFrom(lit, dist, s, at, out).Some?
    ensures var (o, end) := BlockFrom(lit, dist, s, at, out).value; PiecesStood(lit, dist, s, at, out, ps, o, end)
    decreases |s| - at
  {
    hide NextToken, CodeBits, PieceBits, PieceOk, CopyOut, Stands;
    var p := TokenStood(lit, dist, s, at);
    var (t, q) := NextToken(lit, dist, s, at).value;
    if t.End? {
      ps := [];
    } else {
      var next := Expanded(out, t);
      var rest := BlockStood(lit, dist, s, q, next);
      ps := [p] + rest;
      Join(s, at, PieceBits(lit, dist, p), PiecesBits(lit, dist, next, rest));
      assert ps[1..] == rest;
    }
  }

  // ---- code lengths -----------------------------------------------------------------------------------

  lemma ItemStood(cl: Lengths, s: seq<Bit>, at: nat, acc: Lengths)
    requires |cl| == 19 && NextItem(cl, s, at).Some? && Adds(acc, NextItem(cl, s, at).value.0).Some?
    ensures var (item, end) := NextItem(cl, s, at).value;
      ItemOk(cl, acc, item) && Stands(s, at, ItemBits(cl, acc, item)) && end == at + |ItemBits(cl, acc, item)|
  {
    hide DecodeSymbol, CodeBits, ReadBits, Stands, LsbBits;
    DecodedStood(cl, s, at);
    var (sym, q) := DecodeSymbol(cl, s, at).value;
    assert Pow2(2) == 4 && Pow2(3) == 8;
    Pow2Sum(3, 4);
    if sym <= 15 {
      assert CodeBits(cl, sym) + [] == CodeBits(cl, sym);
    } else {
      var n := if sym == 16 then 2 else if sym == 17 then 3 else 7;
      BitsStood(s, q, n);
      Join(s, at, CodeBits(cl, sym), LsbBits(ReadBits(s, q, n).value.0, n));
    }
  }

  lemma {:induction false} ItemsStood(cl: Lengths, s: seq<Bit>, at: nat, total: nat, acc: Lengths)
    returns (items: seq<Item>)
    requires |cl| == 19 && at <= |s| && LengthsFrom(cl, s, at, total, acc).Some?
    ensures var (all, end) := LengthsFrom(cl, s, at, total, acc).value;
      && ItemsOk(cl, acc, items, all) && Stands(s, at, ItemsBits(cl, acc, items, all))
      && end == at + |ItemsBits(cl, acc, items, all)|
    decreases |s| - at
  {
    hide NextItem, ItemBits, CodeLengths, ItemOk, Adds;
    var all := LengthsFrom(cl, s, at, total, acc).value.0;
    if |acc| >= total {
      items := [];
      assert s[at..at + 0] == [];
    } else {
      var (item, q) := NextItem(cl, s, at).value;
      ItemStood(cl, s, at, acc);
      var rest := ItemsStood(cl, s, q, total, Grown(cl, acc, item));
      items := [item] + rest;
      assert items[1..] == rest;
      Join(s, at, ItemBits(cl, acc, item), ItemsBits(cl, Grown(cl, acc, item), rest, all));
    }
  }

  /** The lengths sent from the `k`-th on stood there, and no others have changed. */
  lemma {:induction false} ClStood(s: seq<Bit>, at: nat, k: nat, n: nat, was: Lengths)
    requires k <= n <= 19 && |was| == 19 && at <= |s| && ClFrom(s, at, k, n, was).Some?
    ensures var (cl, end) := ClFrom(s, at, k, n, was).value;
      && Stands(s, at, ClBits(cl, k, n)) && end == at + |ClBits(cl, k, n)|
      && (forall j :: 0 <= j < k || n <= j < 19 ==> cl[SentAs(j)] == was[SentAs(j)])
      && ((forall i :: 0 <= i < 19 ==> was[i] < 8) ==> forall i :: 0 <= i < 19 ==> cl[i] < 8)
    decreases n - k
  {
    hide Order, SentAs, LsbBits, ReadBits, CodeLengths;
    if k == n {
      assert s[at..at + 0] == [];
    } else {
      BitsStood(s, at, 3);
      assert Pow2(3) == 8;
      var (l, p) := ReadBits(s, at, 3).value;
      OrderTable(k);
      var now := was[SentAs(k) := l];
      ClStood(s, p, k + 1, n, now);
      var cl := ClFrom(s, p, k + 1, n, now).value.0;
      forall j | 0 <= j < k || n <= j < 19
        ensures now[SentAs(j)] == was[SentAs(j)]
      {
        if j < k { SentOnce(j, k); } else { SentOnce(k, j); }
      }
      Join(s, at, LsbBits(l, 3), ClBits(cl, k + 1, n));
    }
  }

  // ---- blocks ------------------------------------------------------------------------------------------

  /** The header of a dynamic block names its own codes. */
  ghost predicate HeadStood(s: seq<Bit>, at: nat, b: Block, end: nat) {
    && b.Dynamic? && 257 <= |b.lit| <= 288 && 1 <= |b.dist| <= 32 && ClOk(b.cl, b.n)
    && ItemsOk(b.cl, [], b.items, b.lit + b.dist)
    && Stands(s, at, DynamicHead(b)) && end == at + |DynamicHead(b)|
  }

  lemma HeadParts(s: seq<Bit>, at: nat, b: Block)
    requires b.Dynamic? && 257 <= |b.lit| <= 288 && 1 <= |b.dist| <= 32 && ClOk(b.cl, b.n)
    requires ItemsOk(b.cl, [], b.items, b.lit + b.dist)
    requires Stands(s, at, LsbBits(|b.lit| - 257, 5)) && Stands(s, at + 5, LsbBits(|b.dist| - 1, 5))
    requires Stands(s, at + 10, LsbBits(b.n - 4, 4)) && Stands(s, at + 14, ClBits(b.cl, 0, b.n))
    requires Stands(s, at + 14 + |ClBits(b.cl, 0, b.n)|, ItemsBits(b.cl, [], b.items, b.lit + b.dist))
    ensures HeadStood(s, at, b,
      at + 14 + |ClBits(b.cl, 0, b.n)| + |ItemsBits(b.cl, [], b.items, b.lit + b.dist)|)
  {
    hide Stands, LsbBits, ClBits, ItemsBits, ItemsOk;
    var x, y, z := LsbBits(|b.lit| - 257, 5), LsbBits(|b.dist| - 1, 5), LsbBits(b.n - 4, 4);
    var c, i := ClBits(b.cl, 0, b.n), ItemsBits(b.cl, [], b.items, b.lit + b.dist);
    Join(s, at + 14, c, i);
    Join(s, at + 10, z, c + i);
    Join(s, at + 5, y, z + (c + i));
    Join(s, at, x, y + (z + (c + i)));
  }

  lemma DynamicStood(s: seq<Bit>, at: nat, ps: seq<Piece>) returns (b: Block)
    requires DynamicFrom(s, at).Some?
    ensures var (codes, end) := DynamicFrom(s, at).value;
      HeadStood(s, at, b, end) && b.lit == codes.lit && b.dist == codes.dist && b.ps == ps
  {
    hide Stands, ReadBits, LsbBits, ClFrom, LengthsFrom, ItemsOk, ClBits, ItemsBits, Pow2, CodeLengths, SentAs;
    SmallPowers();
    BitsStood(s, at, 5);
    BitsStood(s, at + 5, 5);
    BitsStood(s, at + 10, 4);
    var hlit, hdist := ReadBits(s, at, 5).value.0 + 257, ReadBits(s, at + 5, 5).value.0 + 1;
    var n := ReadBits(s, at + 10, 4).value.0 + 4;
    var (cl, q) := ClFrom(s, at + 14, 0, n, Repeated(0, 19)).value;
    ClStood(s, at + 14, 0, n, Repeated(0, 19));
    StandsWithin(s, at + 14, ClBits(cl, 0, n));
    var all := LengthsFrom(cl, s, q, hlit + hdist, []).value.0;
    var items := ItemsStood(cl, s, q, hlit + hdist, []);
    b := Dynamic(all[..hlit], all[hlit..], n, cl, items, ps);
    assert b.lit + b.dist == all;
    HeadParts(s, at, b);
  }

  lemma StandsWithin(s: seq<Bit>, at: nat, bs: seq<Bit>)
    requires Stands(s, at, bs)
    ensures at + |bs| <= |s|
  {
  }

  lemma StoredStood(data: seq<u8>, p: nat, out: seq<u8>) returns (bytes: seq<u8>)
    requires BodyFrom(data, 0, p, out).Some?
    ensures var (more, end) := BodyFrom(data, 0, p, out).value;
      |bytes| < 0x1_0000 && more == out + bytes && LaidStored(data, p, bytes, end)
  {
    hide BlockFrom, DynamicFrom, Stream;
    var q := AlignUp(p) / 8;
    Aligned(p);
    TwoBytes(data[q..q + 2]);
    bytes := StoredFrom(data, q).value.0;
  }

  ghost predicate BodyStood(data: seq<u8>, at: nat, kind: nat, b: Block, out: seq<u8>, more: seq<u8>, end: nat) {
    && BlockOk(b, out) && KindOf(b) == kind && more == BlockExpansion(b, out)
    && match b
       case Stored(bytes) => LaidStored(data, at, bytes, end)
       case Fixed(ps) => HasCode(FixedLit(), 256) && LaidPieces(Stream(data), at, FixedLit(), FixedDist(), out, ps, end)
       case Dynamic(lit, dist, _, _, _, ps) =>
         && Stands(Stream(data), at, DynamicHead(b))
         && LaidPieces(Stream(data), at + |DynamicHead(b)|, lit, dist, out, ps, end)
  }

  lemma DynamicBodyStood(data: seq<u8>, at: nat, out: seq<u8>) returns (b: Block)
    requires BodyFrom(data, 2, at, out).Some?
    ensures var (more, end) := BodyFrom(data, 2, at, out).value; BodyStood(data, at, 2, b, out, more, end)
  {
    hide Stream, BlockFrom, DynamicFrom, StoredFrom, LaidPieces, LaidStored, Stands, DynamicHead, PiecesOk, ItemsOk,
      Expand, ClOk, HasCode;
    var (codes, p) := DynamicFrom(Stream(data), at).value;
    var ps := BlockStood(codes.lit, codes.dist, Stream(data), p, out);
    b := DynamicStood(Stream(data), at, ps);
  }

  lemma BlockBodyStood(data: seq<u8>, kind: nat, at: nat, out: seq<u8>) returns (b: Block)
    requires BodyFrom(data, kind, at, out).Some?
    ensures var (more, end) := BodyFrom(data, kind, at, out).value; BodyStood(data, at, kind, b, out, more, end)
  {
    hide Stream, BlockFrom, DynamicFrom, StoredFrom, LaidPieces, LaidStored, Stands, DynamicHead, PiecesOk, ItemsOk,
      Expand, ClOk, FixedLit, FixedDist, HasCode;
    if kind == 0 {
      var bytes := StoredStood(data, at, out);
      b := Stored(bytes);
    } else if kind == 1 {
      var ps := BlockStood(FixedLit(), FixedDist(), Stream(data), at, out);
      b := Fixed(ps);
    } else {
      b := DynamicBodyStood(data, at, out);
    }
  }

  // ---- streams -----------------------------------------------------------------------------------------

  lemma LaidFirstStood(data: seq<u8>, at: nat, b: Block, final: bool, out: seq<u8>, more: seq<u8>, end: nat)
    requires Stands(Stream(data), at, LsbBits((if final then 1 else 0) + 2 * KindOf(b), 3))
    requires BodyStood(data, at + 3, KindOf(b), b, out, more, end)
    ensures BlockOk(b, out) && Laid(data, at, b, final, out, end)
  {
    hide Stream, Stands, LsbBits, DynamicHead, LaidPieces, LaidStored, BlockOk, BlockExpansion, FixedLit, FixedDist;
  }

  /** A block in front of others. */
  lemma LaidBefore(data: seq<u8>, at: nat, b: Block, rest: seq<Block>, out: seq<u8>, end: nat)
    requires BlockOk(b, out) && Laid(data, at, b, rest == [], out, end)
    requires rest != [] ==> LaidOut(data, end, rest, BlockExpansion(b, out))
    requires BlocksOk(rest, BlockExpansion(b, out))
    ensures LaidOut(data, at, [b] + rest, out) && BlocksOk([b] + rest, out)
    ensures ExpandAll([b] + rest, out) == ExpandAll(rest, BlockExpansion(b, out))
  {
    hide Laid, BlockOk, BlockExpansion;
    var blocks := [b] + rest;
    assert blocks[1..] == rest;
    assert LaidFirst(data, at, blocks, out, end);
  }

  /** The first block of a stream that inflates, and what is left behind it. */
  lemma FirstStood(data: seq<u8>, at: nat, out: seq<u8>) returns (b: Block, final: bool, end: nat)
    requires InflateFrom(data, at, out).Some?
    ensures BlockOk(b, out) && Laid(data, at, b, final, out, end) && end > at
    ensures InflateFrom(data, at, out)
      == if final then Some(BlockExpansion(b, out)) else InflateFrom(data, end, BlockExpansion(b, out))
    ensures end <= 8 * |data|
  {
    hide Stream, Stands, BodyFrom, BlockOk, BlockExpansion, LsbBits, ReadBits, Laid;
    BitsStood(Stream(data), at, 3);
    var (head, p) := ReadBits(Stream(data), at, 3).value;
    var (more, q) := BodyFrom(data, head / 2, p, out).value;
    b := BlockBodyStood(data, head / 2, p, out);
    final, end := head % 2 == 1, q;
    HeadParity(head);
    LaidFirstStood(data, at, b, final, out, more, q);
  }

  lemma HeadParity(head: nat)
    ensures head == (if head % 2 == 1 then 1 else 0) + 2 * (head / 2)
  {
  }

  /** Whatever inflates is a sequence of blocks laid out one behind the other, and inflates to their expansion. */
  lemma {:induction false} InflateStood(data: seq<u8>, at: nat, out: seq<u8>) returns (blocks: seq<Block>)
    requires InflateFrom(data, at, out).Some?
    ensures LaidOut(data, at, blocks, out) && BlocksOk(blocks, out)
    ensures InflateFrom(data, at, out) == Some(ExpandAll(blocks, out))
    decreases 8 * |data| - at
  {
    hide Laid, BlockOk, BlockExpansion, InflateFrom, LaidOut, BlocksOk, ExpandAll;
    var b, final, end := FirstStood(data, at, out);
    var rest := [];
    if final {
      NoBlocks(BlockExpansion(b, out));
    } else {
      rest := InflateStood(data, end, BlockExpansion(b, out));
      SomeBlocks(data, end, rest, BlockExpansion(b, out));
    }
    LaidBefore(data, at, b, rest, out, end);
    blocks := [b] + rest;
  }

  lemma NoBlocks(out: seq<u8>)
    ensures BlocksOk([], out) && ExpandAll([], out) == out
  {
  }

  lemma SomeBlocks(data: seq<u8>, at: nat, blocks: seq<Block>, out: seq<u8>)
    requires LaidOut(data, at, blocks, out)
    ensures blocks != []
  {
  }
}
