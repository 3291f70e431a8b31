/** Expansion of DEFLATE streams (section 3.2 of RFC 1951). */
module Inflate {
  import opened Errors
  import opened Bytes
  import opened BitStream
  import opened Huffman

  function LenBase(): (t: seq<nat>)
    ensures |t| == 29
  {
    [3, 4, 5, 6, 7, 8, 9, 10, 11, 13, 15, 17, 19, 23, 27, 31, 35, 43, 51, 59, 67, 83, 99, 115, 131, 163, 195, 227, 258]
  }

  function LenExtra(): (t: seq<nat>)
    ensures |t| == 29
  {
    [0, 0, 0, 0, 0, 0, 0, 0, 1, 1, 1, 1, 2, 2, 2, 2, 3, 3, 3, 3, 4, 4, 4, 4, 5, 5, 5, 5, 0]
  }

  function DistBase(): (t: seq<nat>)
    ensures |t| == 30
  {
    [1, 2, 3, 4, 5, 7, 9, 13, 17, 25, 33, 49, 65, 97, 129, 193, 257, 385, 513, 769, 1025, 1537, 2049, 3073, 4097, 6145,
     8193, 12289, 16385, 24577]
  }

  function DistExtra(): (t: seq<nat>)
    ensures |t| == 30
  {
    [0, 0, 0, 0, 1, 1, 2, 2, 3, 3, 4, 4, 5, 5, 6, 6, 7, 7, 8, 8, 9, 9, 10, 10, 11, 11, 12, 12, 13, 13]
  }

  /** The order in which the code length code's own lengths come. */
  function Order(): (t: seq<nat>)
    ensures |t| == 19 && forall k :: 0 <= k < 19 ==> t[k] < 19
  {
    [16, 17, 18, 0, 8, 7, 9, 6, 10, 5, 11, 4, 12, 3, 13, 2, 14, 1, 15]
  }

  // ---- expansion -------------------------------------------------------------------------------

  /** What a symbol in a block asks for. */
  datatype Token = End | Literal(b: u8) | Copy(length: nat, distance: nat)

  /** `n` bytes from `d` back, one at a time: the source may run into the copy itself. */
  function CopyOut(out: seq<u8>, d: nat, n: nat): (r: seq<u8>)
    requires 0 < d <= |out|
    ensures |r| == |out| + n
    decreases n
  {
    if n == 0 then out else CopyOut(out + [out[|out| - d]], d, n - 1)
  }

  lemma {:induction false} CopyKeeps(out: seq<u8>, d: nat, n: nat)
    requires 0 < d <= |out|
    ensures CopyOut(out, d, n)[..|out|] == out
    decreases n
  {
    if n > 0 {
      var more := out + [out[|out| - d]];
      CopyKeeps(more, d, n - 1);
      assert CopyOut(out, d, n)[..|out|] == CopyOut(more, d, n - 1)[..|more|][..|out|];
    }
  }

  /** A copy repeats the last `d` bytes over and over, however long it is. */
  lemma {:induction false} CopyRepeats(out: seq<u8>, d: nat, n: nat, k: nat)
    requires 0 < d <= |out| && k < n
    ensures CopyOut(out, d, n)[|out| + k] == out[|out| - d + k % d]
    decreases n
  {
    var more := out + [out[|out| - d]];
    if k == 0 {
      CopyKeeps(more, d, n - 1);
      assert CopyOut(more, d, n - 1)[|out|] == CopyOut(more, d, n - 1)[..|more|][|out|];
    } else {
      CopyRepeats(more, d, n - 1, k - 1);
      Cycle(k, d);
    }
  }

  /** One step on around a cycle of length `d`. */
  lemma Cycle(k: nat, d: nat)
    requires 0 < d && 0 < k
    ensures k % d == if (k - 1) % d + 1 == d then 0 else (k - 1) % d + 1
  {
    var q, r := Divided(k - 1, d);
    if r + 1 == d {
      Remainder(k, q + 1, d, 0);
    } else {
      Remainder(k, q, d, r + 1);
    }
  }

  lemma Remainder(x: nat, q: nat, d: nat, r: nat)
    requires 0 < d && x == q * d + r && r < d
    ensures x % d == r
  {
    QuotientIs(x, q, d, r);
  }

  // ---- tokens, on bits --------------------------------------------------------------------------

  function ReadBits(s: seq<Bit>, at: nat, n: nat): (r: Option<(nat, nat)>)
    ensures r.Some? ==> r.value.1 == at + n <= |s|
  {
    if at + n > |s| then None else Some((LsbVal(s[at..at + n]), at + n))
  }

  /** The distance that follows a length. */
  function NextCopy(dist: Lengths, s: seq<Bit>, at: nat, length: nat): (r: Option<(Token, nat)>)
    ensures r.Some? ==> at < r.value.1 <= |s|
  {
    match DecodeSymbol(dist, s, at)
    case None => None
    case Some((d, p)) =>
      if d >= 30 then None
      else
        match ReadBits(s, p, DistExtra()[d])
        case None => None
        case Some((y, q)) => Some((Copy(length, DistBase()[d] + y), q))
  }

  function NextToken(lit: Lengths, dist: Lengths, s: seq<Bit>, at: nat): (r: Option<(Token, nat)>)
    ensures r.Some? ==> at < r.value.1 <= |s|
  {
    match DecodeSymbol(lit, s, at)
    case None => None
    case Some((sym, p)) =>
      if sym == 256 then Some((End, p))
      else if sym < 256 then Some((Literal(sym), p))
      else if sym - 257 >= 29 then None
      else
        match ReadBits(s, p, LenExtra()[sym - 257])
        case None => None
        case Some((x, q)) => NextCopy(dist, s, q, LenBase()[sym - 257] + x)
  }

  /** Tokens up to the end of the block; each consumes bits. */
  function BlockFrom(lit: Lengths, dist: Lengths, s: seq<Bit>, at: nat, out: seq<u8>): (r: Option<(seq<u8>, nat)>)
    ensures r.Some? ==> at < r.value.1 <= |s|
    decreases |s| - at
  {
    match NextToken(lit, dist, s, at)
    case None => None
    case Some((End, p)) => Some((out, p))
    case Some((Literal(b), p)) => BlockFrom(lit, dist, s, p, out + [b])
    case Some((Copy(n, d), p)) =>
      if d == 0 || d > |out| then None else BlockFrom(lit, dist, s, p, CopyOut(out, d, n))
  }

  // ---- the code lengths of a dynamic block ---------------------------------------------------------

  /** A literal length, or a run. */
  datatype Item = Len(l: nat) | Again(n: nat) | Zeros(n: nat)

  function NextItem(cl: Lengths, s: seq<Bit>, at: nat): (r: Option<(Item, nat)>)
    ensures r.Some? ==> at < r.value.1 <= |s|
  {
    match DecodeSymbol(cl, s, at)
    case None => None
    case Some((sym, p)) =>
      if sym <= 15 then Some((Len(sym), p))
      else if sym == 16 then
        (match ReadBits(s, p, 2) case None => None case Some((x, q)) => Some((Again(3 + x), q)))
      else if sym == 17 then
        (match ReadBits(s, p, 3) case None => None case Some((x, q)) => Some((Zeros(3 + x), q)))
      else if sym == 18 then
        (match ReadBits(s, p, 7) case None => None case Some((x, q)) => Some((Zeros(11 + x), q)))
      else None
  }

  function Repeated(l: nat, n: nat): (r: Lengths)
    ensures |r| == n && forall i :: 0 <= i < n ==> r[i] == l
  {
    seq(n, _ => l)
  }

  /** The lengths an item adds; a run needs something to repeat. */
  function Adds(acc: Lengths, item: Item): Option<Lengths> {
    match item
    case Len(l) => Some([l])
    case Again(n) => if acc == [] then None else Some(Repeated(acc[|acc| - 1], n))
    case Zeros(n) => Some(Repeated(0, n))
  }

  /** Items until there are exactly `total` lengths. */
  function LengthsFrom(cl: Lengths, s: seq<Bit>, at: nat, total: nat, acc: Lengths): (r: Option<(Lengths, nat)>)
    ensures r.Some? ==> |r.value.0| == total && at <= r.value.1
    ensures r.Some? && CodeLengths(acc) ==> CodeLengths(r.value.0)
    decreases |s| - at
  {
    if |acc| >= total then (if |acc| == total then Some((acc, at)) else None)
    else
      match NextItem(cl, s, at)
      case None => None
      case Some((item, p)) =>
        var more := Adds(acc, item);
        if more.None? || |acc| + |more.value| > total then None
        else
          ItemLengths(cl, s, at, acc);
          LengthsFrom(cl, s, p, total, acc + more.value)
  }

  lemma ItemLengths(cl: Lengths, s: seq<Bit>, at: nat, acc: Lengths)
    requires NextItem(cl, s, at).Some? && Adds(acc, NextItem(cl, s, at).value.0).Some?
    ensures CodeLengths(acc) ==> CodeLengths(acc + Adds(acc, NextItem(cl, s, at).value.0).value)
  {
    hide DecodeSymbol, ReadBits;
  }

  /** The three-bit lengths of the code length code, from the `k`-th on. */
  function ClFrom(s: seq<Bit>, at: nat, k: nat, n: nat, cl: Lengths): (r: Option<(Lengths, nat)>)
    requires k <= n <= 19 && |cl| == 19
    ensures r.Some? ==> |r.value.0| == 19 && r.value.1 == at + 3 * (n - k)
    ensures r.Some? && CodeLengths(cl) ==> CodeLengths(r.value.0)
    decreases n - k
  {
    if k == n then Some((cl, at))
    else
      match ReadBits(s, at, 3)
      case None => None
      case Some((l, p)) =>
        LsbBound(s[at..at + 3]);
        assert Pow2(3) == 8;
        ClFrom(s, p, k + 1, n, cl[Order()[k] := l])
  }

  datatype Codes = Codes(lit: Lengths, dist: Lengths)

  /** The header of a dynamic block. */
  function DynamicFrom(s: seq<Bit>, at: nat): (r: Option<(Codes, nat)>)
    ensures r.Some? ==> at < r.value.1 && CodeLengths(r.value.0.lit) && CodeLengths(r.value.0.dist)
  {
    var a := ReadBits(s, at, 5);
    if a.None? then None else
    var b := ReadBits(s, a.value.1, 5);
    if b.None? then None else
    var c := ReadBits(s, b.value.1, 4);
    if c.None? then None else
    DynamicBody(s, c.value.1, a.value.0 + 257, b.value.0 + 1, c.value.0 + 4)
  }

  function DynamicBody(s: seq<Bit>, at: nat, hlit: nat, hdist: nat, hclen: nat): (r: Option<(Codes, nat)>)
    ensures r.Some? ==> at <= r.value.1 && CodeLengths(r.value.0.lit) && CodeLengths(r.value.0.dist)
  {
    if hclen > 19 then None else
    var cl := ClFrom(s, at, 0, hclen, Repeated(0, 19));
    if cl.None? then None else
    var all := LengthsFrom(cl.value.0, s, cl.value.1, hlit + hdist, []);
    if all.None? then None
    else Some((Codes(all.value.0[..hlit], all.value.0[hlit..]), all.value.1))
  }

  function FixedLit(): (ls: Lengths)
    ensures |ls| == 288 && CodeLengths(ls)
  {
    seq(288, i requires 0 <= i < 288 => if i <= 143 then 8 else if i <= 255 then 9 else if i <= 279 then 7 else 8)
  }

  function FixedDist(): (ls: Lengths)
    ensures |ls| == 32 && CodeLengths(ls)
  {
    Repeated(5, 32)
  }

  // ---- streams ----------------------------------------------------------------------------------

  function AlignUp(at: nat): nat {
    (at + 7) / 8 * 8
  }

  /** A stored block from byte `pos`: its length, the length's complement, which is skipped, and the bytes. */
  function StoredFrom(data: seq<u8>, pos: nat): (r: Option<(seq<u8>, nat)>)
    ensures r.Some? ==> pos < r.value.1 <= |data|
  {
    if pos + 4 > |data| then None
    else
      var len := FromLe(data[pos..pos + 2]);
      if pos + 4 + len > |data| then None else Some((data[pos + 4..pos + 4 + len], pos + 4 + len))
  }

  /** One block whose header's type is `kind`, behind the header. */
  function BodyFrom(data: seq<u8>, kind: nat, at: nat, out: seq<u8>): (r: Option<(seq<u8>, nat)>)
    ensures r.Some? ==> at < r.value.1 <= 8 * |data|
  {
    var s := Stream(data);
    if kind == 0 then
      (match StoredFrom(data, AlignUp(at) / 8) case None => None case Some((bytes, p)) => Some((out + bytes, 8 * p)))
    else if kind == 1 then BlockFrom(FixedLit(), FixedDist(), s, at, out)
    else if kind == 2 then
      (match DynamicFrom(s, at)
       case None => None
       case Some((codes, p)) => BlockFrom(codes.lit, codes.dist, s, p, out))
    else None
  }

  /** Blocks up to the one marked final. */
  function InflateFrom(data: seq<u8>, at: nat, out: seq<u8>): Option<seq<u8>>
    decreases 8 * |data| - at
  {
    var s := Stream(data);
    match ReadBits(s, at, 3)
    case None => None
    case Some((head, p)) =>
      match BodyFrom(data, head / 2, p, out)
      case None => None
      case Some((more, q)) => if head % 2 == 1 then Some(more) else InflateFrom(data, q, more)
  }

  // ---- the loops ----------------------------------------------------------------------------------

  method CopyLoop(out: seq<u8>, d: nat, n: nat) returns (r: seq<u8>)
    requires 0 < d <= |out|
    ensures r == CopyOut(out, d, n)
  {
    r := out;
    var start := |out| - d;
    for k := 0 to n
      invariant |r| == |out| + k && CopyOut(r, d, n - k) == CopyOut(out, d, n)
    {
      r := r + [r[start + k]];
    }
  }

  method ReadCopy(br: BitReader, hd: Huffman, length: nat, ghost dist: Lengths) returns (r: Option<Token>)
    requires br.Valid() && TableOf(hd, dist)
    modifies br
    ensures br.Valid()
    ensures var want := NextCopy(dist, Stream(br.data), old(br.At()), length);
      && r == (match want case None => None case Some((t, _)) => Some(t)) && (r.Some? ==> br.At() == want.value.1)
  {
    hide DecodeSymbol, Stream, TableOf, BitReader.Valid, BitReader.At;
    var d := Decode(hd, br, dist);
    if d.None? { return None; }
    if d.value >= 30 { return None; }
    var y := br.Bits(DistExtra()[d.value]);
    if y.None? { return None; }
    return Some(Copy(length, DistBase()[d.value] + y.value));
  }

  method ReadToken(br: BitReader, hl: Huffman, hd: Huffman, ghost lit: Lengths, ghost dist: Lengths)
    returns (r: Option<Token>)
    requires br.Valid() && TableOf(hl, lit) && TableOf(hd, dist)
    modifies br
    ensures br.Valid()
    ensures var want := NextToken(lit, dist, Stream(br.data), old(br.At()));
      && r == (match want case None => None case Some((t, _)) => Some(t)) && (r.Some? ==> br.At() == want.value.1)
  {
    hide DecodeSymbol, Stream, TableOf, NextCopy, BitReader.Valid, BitReader.At;
    var sym := Decode(hl, br, lit);
    if sym.None? { return None; }
    if sym.value == 256 { return Some(End); }
    if sym.value < 256 { return Some(Literal(sym.value)); }
    var k := sym.value - 257;
    if k >= 29 { return None; }
    var x := br.Bits(LenExtra()[k]);
    if x.None? { return None; }
    r := ReadCopy(br, hd, LenBase()[k] + x.value, dist);
  }

  method InflateBlock(br: BitReader, out: seq<u8>, hl: Huffman, hd: Huffman, ghost lit: Lengths, ghost dist: Lengths)
    returns (r: Option<seq<u8>>)
    requires br.Valid() && TableOf(hl, lit) && TableOf(hd, dist)
    modifies br
    ensures br.Valid()
    ensures var want := BlockFrom(lit, dist, Stream(br.data), old(br.At()), out);
      && r == (match want case None => None case Some((o, _)) => Some(o)) && (r.Some? ==> br.At() == want.value.1)
  {
    hide NextToken, Stream, TableOf, BitReader.Valid, BitReader.At, CopyOut;
    ghost var s := Stream(br.data);
    var now := out;
    while true
      invariant br.Valid()
      invariant BlockFrom(lit, dist, s, old(br.At()), out) == BlockFrom(lit, dist, s, br.At(), now)
      decreases |s| - br.At()
    {
      var t := ReadToken(br, hl, hd, lit, dist);
      match t
      case None => return None;
      case Some(End) => return Some(now);
      case Some(Literal(b)) => now := now + [b];
      case Some(Copy(n, d)) =>
        if d == 0 || d > |now| { return None; }
        now := CopyLoop(now, d, n);
    }
  }

  method ReadItem(br: BitReader, h: Huffman, ghost cl: Lengths) returns (r: Option<Item>)
    requires br.Valid() && TableOf(h, cl)
    modifies br
    ensures br.Valid()
    ensures var want := NextItem(cl, Stream(br.data), old(br.At()));
      && r == (match want case None => None case Some((t, _)) => Some(t)) && (r.Some? ==> br.At() == want.value.1)
  {
    hide DecodeSymbol, Stream, TableOf, BitReader.Valid, BitReader.At;
    var sym := Decode(h, br, cl);
    if sym.None? { return None; }
    if sym.value <= 15 { return Some(Len(sym.value)); }
    if sym.value > 18 { return None; }
    var x := br.Bits(if sym.value == 16 then 2 else if sym.value == 17 then 3 else 7);
    if x.None? { return None; }
    return Some(if sym.value == 16 then Again(3 + x.value)
                else Zeros(if sym.value == 17 then 3 + x.value else 11 + x.value));
  }

  /** The code lengths of both codes, run lengths expanded. */
  method ReadLengths(br: BitReader, h: Huffman, total: nat, ghost cl: Lengths) returns (r: Option<Lengths>)
    requires br.Valid() && TableOf(h, cl)
    modifies br
    ensures br.Valid()
    ensures var want := LengthsFrom(cl, Stream(br.data), old(br.At()), total, []);
      && r == (match want case None => None case Some((ls, _)) => Some(ls)) && (r.Some? ==> br.At() == want.value.1)
  {
    hide NextItem, Stream, TableOf, BitReader.Valid, BitReader.At;
    ghost var s := Stream(br.data);
    var acc: Lengths := [];
    while |acc| < total
      invariant br.Valid() && |acc| <= total
      invariant LengthsFrom(cl, s, old(br.At()), total, []) == LengthsFrom(cl, s, br.At(), total, acc)
      decreases |s| - br.At()
    {
      var item := ReadItem(br, h, cl);
      if item.None? { return None; }
      var more := Adds(acc, item.value);
      if more.None? || |acc| + |more.value| > total { return None; }
      acc := acc + more.value;
    }
    return Some(acc);
  }

  method ReadCl(br: BitReader, n: nat) returns (r: Option<Lengths>)
    requires br.Valid() && n <= 19
    modifies br
    ensures br.Valid()
    ensures var want := ClFrom(Stream(br.data), old(br.At()), 0, n, Repeated(0, 19));
      && r == (match want case None => None case Some((cl, _)) => Some(cl)) && (r.Some? ==> br.At() == want.value.1)
  {
    hide Stream, BitReader.Valid, BitReader.At;
    ghost var s := Stream(br.data);
    var cl: Lengths := Repeated(0, 19);
    for k := 0 to n
      invariant br.Valid() && |cl| == 19
      invariant ClFrom(s, old(br.At()), 0, n, Repeated(0, 19)) == ClFrom(s, br.At(), k, n, cl)
    {
      var l := br.Bits(3);
      if l.None? { return None; }
      cl := cl[Order()[k] := l.value];
    }
    return Some(cl);
  }

  method ReadDynamic(br: BitReader) returns (r: Option<(Huffman, Huffman)>)
    requires br.Valid()
    modifies br
    ensures br.Valid()
    ensures var want := DynamicFrom(Stream(br.data), old(br.At()));
      && (r.Some? <==> want.Some?)
      && (r.Some? ==>
            br.At() == want.value.1 && TableOf(r.value.0, want.value.0.lit) && TableOf(r.value.1, want.value.0.dist))
  {
    hide Stream, BitReader.Valid, BitReader.At, TableOf, LengthsFrom, ClFrom, LsbVal;
    var a := br.Bits(5);
    if a.None? { return None; }
    var b := br.Bits(5);
    if b.None? { return None; }
    var c := br.Bits(4);
    if c.None? { return None; }
    HclenFits(Stream(br.data), old(br.At()) + 10);
    r := ReadCodes(br, a.value + 257, b.value + 1, c.value + 4);
  }

  lemma HclenFits(s: seq<Bit>, at: nat)
    requires at + 4 <= |s|
    ensures LsbVal(s[at..at + 4]) + 4 <= 19
  {
    LsbBound(s[at..at + 4]);
    assert Pow2(4) == 16;
  }

  method ReadCodes(br: BitReader, hlit: nat, hdist: nat, hclen: nat) returns (r: Option<(Huffman, Huffman)>)
    requires br.Valid() && hclen <= 19
    modifies br
    ensures br.Valid()
    ensures var want := DynamicBody(Stream(br.data), old(br.At()), hlit, hdist, hclen);
      && (r.Some? <==> want.Some?)
      && (r.Some? ==>
            br.At() == want.value.1 && TableOf(r.value.0, want.value.0.lit) && TableOf(r.value.1, want.value.0.dist))
  {
    hide Stream, BitReader.Valid, BitReader.At, TableOf, LengthsFrom, ClFrom;
    ghost var want := DynamicBody(Stream(br.data), br.At(), hlit, hdist, hclen);
    var cl := ReadCl(br, hclen);
    if cl.None? { return None; }
    assert CodeLengths(Repeated(0, 19));
    var h := Build(cl.value);
    var all := ReadLengths(br, h, hlit + hdist, cl.value);
    if all.None? { return None; }
    assert want.Some?;
    var lit := Build(all.value[..hlit]);
    var dist := Build(all.value[hlit..]);
    return Some((lit, dist));
  }

  method ReadBody(br: BitReader, kind: nat, out: seq<u8>) returns (r: Option<seq<u8>>)
    requires br.Valid()
    modifies br
    ensures br.Valid()
    ensures var want := BodyFrom(br.data, kind, old(br.At()), out);
      && r == (match want case None => None case Some((o, _)) => Some(o)) && (r.Some? ==> br.At() == want.value.1)
  {
    hide Stream, TableOf, BlockFrom, DynamicFrom;
    if kind == 0 {
      br.Align();
      if br.pos + 4 > |br.data| { return None; }
      var len := FromLe(br.data[br.pos..br.pos + 2]);
      br.pos := br.pos + 4;
      if br.pos + len > |br.data| { return None; }
      var more := out + br.data[br.pos..br.pos + len];
      br.pos := br.pos + len;
      return Some(more);
    }
    if kind == 1 {
      var lit := Build(FixedLit());
      var dist := Build(FixedDist());
      r := InflateBlock(br, out, lit, dist, FixedLit(), FixedDist());
      return;
    }
    if kind == 2 {
      ghost var want := DynamicFrom(Stream(br.data), br.At());
      var tables := ReadDynamic(br);
      if tables.None? { return None; }
      r := InflateBlock(br, out, tables.value.0, tables.value.1, want.value.0.lit, want.value.0.dist);
      return;
    }
    return None;
  }

  /** Inflate a raw DEFLATE stream. Terminates on any input: every block consumes bits. */
  method InflateData(data: seq<u8>) returns (r: Option<seq<u8>>)
    ensures r == InflateFrom(data, 0, [])
  {
    hide Stream, BodyFrom, BitReader.Valid, BitReader.At;
    var br := new BitReader(data);
    var out := [];
    while true
      invariant br.Valid() && br.data == data && InflateFrom(data, 0, []) == InflateFrom(data, br.At(), out)
      decreases 8 * |data| - br.At()
    {
      ghost var s, at := Stream(data), br.At();
      var last := br.NextBit();
      if last.None? { return None; }
      var kind := br.Bits(2);
      if kind.None? { return None; }
      HeadBits(s, at);
      var more := ReadBody(br, kind.value, out);
      if more.None? { return None; }
      out := more.value;
      if last.value == 1 { return Some(out); }
    }
  }

  lemma HeadBits(s: seq<Bit>, at: nat)
    requires at + 3 <= |s|
    ensures LsbVal(s[at..at + 3]) % 2 == s[at] && LsbVal(s[at..at + 3]) / 2 == LsbVal(s[at + 1..at + 3])
  {
    assert s[at..at + 3][1..] == s[at + 1..at + 3];
    LsbFirst(s[at..at + 3]);
  }
}
