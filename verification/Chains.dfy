/** Blob chains and index chains on the pager. */
module Chains {
  import opened Bytes
  import opened JournalFormat
  import opened Pager
  import opened ChainModel

  /** Stable handle to a row. */
  datatype RowId = RowId(page: u64, slot: nat)

  // ---- cutting bytes into pages -----------------------------------------------------------

  function ChunkCount(bytes: seq<u8>): (n: nat)
    ensures 0 < n && (n - 1) * 4080 <= |bytes| <= n * 4080
  {
    if bytes == [] then 1 else (|bytes| + 4079) / 4080
  }

  function ChunkAt(bytes: seq<u8>, i: nat): (c: seq<u8>)
    requires i < ChunkCount(bytes)
    ensures |c| <= CHAIN_CAP
  {
    bytes[i * 4080..if (i + 1) * 4080 < |bytes| then (i + 1) * 4080 else |bytes|]
  }

  /** The image of the `i`-th page of a chain of `bytes` over `ps`. */
  function ChunkImage(bytes: seq<u8>, ps: seq<u64>, i: nat): Page
    requires |ps| == ChunkCount(bytes) && i < |ps|
  {
    BlobImage(if i + 1 < |ps| then ps[i + 1] else 0, ChunkAt(bytes, i))
  }

  ghost predicate Laid(v: View, bytes: seq<u8>, ps: seq<u64>, n: nat)
    requires |ps| == ChunkCount(bytes)
  {
    forall j :: 0 <= j < n && j < |ps| ==> ps[j] in v && v[ps[j]] == ChunkImage(bytes, ps, j)
  }

  /** The pages so written are a chain that holds exactly `bytes`. */
  lemma {:induction false} LaidHolds(v: View, bytes: seq<u8>, ps: seq<u64>, i: nat)
    requires |ps| == ChunkCount(bytes) && i < |ps| && Laid(v, bytes, ps, |ps|)
    requires forall j :: 0 <= j < |ps| ==> ps[j] != 0
    ensures Linked(v, ps[i], ps[i..]) && BlobPages(v, ps[i..]) && BlobOf(v, ps[i..]) == bytes[i * 4080..]
    decreases |ps| - i
  {
    hide BlobImage, NextOf, LenOf, PayloadOf;
    var next := if i + 1 < |ps| then ps[i + 1] else 0;
    BlobImageReads(next, ChunkAt(bytes, i));
    assert v[ps[i]] == BlobImage(next, ChunkAt(bytes, i));
    if i + 1 < |ps| {
      LaidHolds(v, bytes, ps, i + 1);
      assert bytes[i * 4080..] == ChunkAt(bytes, i) + bytes[(i + 1) * 4080..];
    } else {
      assert bytes[i * 4080..] == ChunkAt(bytes, i) + [];
    }
    assert ps[i..][1..] == ps[i + 1..];
  }

  // ---- index pages ------------------------------------------------------------------------

  lemma PutSlot(img: Page, i: nat, x: u64)
    requires i < IDX_CAP
    ensures var r := PutU64(img, 16 + i * 8, x);
      && NextOf(r) == NextOf(img) && LenOf(r) == LenOf(img) && SlotAt(r, i) == x
      && forall k :: 0 <= k < IDX_CAP && k != i ==> SlotAt(r, k) == SlotAt(img, k)
  {
    PutGet64(img, 16 + i * 8, x);
    PutGetOther64(img, 16 + i * 8, x, 0);
    PutGetOther64(img, 16 + i * 8, x, 8);
    forall k | 0 <= k < IDX_CAP && k != i
      ensures SlotAt(PutU64(img, 16 + i * 8, x), k) == SlotAt(img, k)
    {
      PutGetOther64(img, 16 + i * 8, x, 16 + k * 8);
    }
  }

  lemma PutLen(img: Page, n: u64)
    ensures var r := PutU64(img, 8, n);
      NextOf(r) == NextOf(img) && LenOf(r) == n && forall k :: 0 <= k < IDX_CAP ==> SlotAt(r, k) == SlotAt(img, k)
  {
    PutGet64(img, 8, n);
    PutGetOther64(img, 8, n, 0);
    forall k | 0 <= k < IDX_CAP
      ensures SlotAt(PutU64(img, 8, n), k) == SlotAt(img, k)
    {
      PutGetOther64(img, 8, n, 16 + k * 8);
    }
  }

  lemma PutNext(img: Page, next: u64)
    ensures var r := PutU64(img, 0, next);
      NextOf(r) == next && LenOf(r) == LenOf(img) && forall k :: 0 <= k < IDX_CAP ==> SlotAt(r, k) == SlotAt(img, k)
  {
    PutGet64(img, 0, next);
    PutGetOther64(img, 0, next, 8);
    forall k | 0 <= k < IDX_CAP
      ensures SlotAt(PutU64(img, 0, next), k) == SlotAt(img, k)
    {
      PutGetOther64(img, 0, next, 16 + k * 8);
    }
  }

  /** One more slot on the page. */
  function PushImage(img: Page, x: u64): Page
    requires LenOf(img) < IDX_CAP
  {
    PutU64(PutU64(img, 16 + LenOf(img) * 8, x), 8, LenOf(img) + 1)
  }

  lemma PushImageReads(img: Page, x: u64)
    requires LenOf(img) < IDX_CAP
    ensures NextOf(PushImage(img, x)) == NextOf(img) && LenOf(PushImage(img, x)) <= IDX_CAP
    ensures SlotsOf(PushImage(img, x)) == SlotsOf(img) + [x]
  {
    hide NextOf, LenOf, SlotAt, PutU64;
    PutSlot(img, LenOf(img), x);
    PutLen(PutU64(img, 16 + LenOf(img) * 8, x), LenOf(img) + 1);
  }

  lemma SetImageReads(img: Page, i: nat, x: u64)
    requires LenOf(img) <= IDX_CAP && i < LenOf(img)
    ensures var r := PutU64(img, 16 + i * 8, x);
      NextOf(r) == NextOf(img) && LenOf(r) <= IDX_CAP && SlotsOf(r) == SlotsOf(img)[i := x]
  {
    hide NextOf, LenOf, SlotAt, PutU64;
    PutSlot(img, i, x);
  }

  lemma LinkImageReads(img: Page, next: u64)
    requires LenOf(img) <= IDX_CAP
    ensures var r := PutU64(img, 0, next);
      NextOf(r) == next && LenOf(r) <= IDX_CAP && SlotsOf(r) == SlotsOf(img)
  {
    hide NextOf, LenOf, SlotAt, PutU64;
    PutNext(img, next);
  }

  /** A fresh index page with one slot. */
  function FirstImage(x: u64): Page {
    PutU64(PutU64(ZeroPage(), 8, 1), 16, x)
  }

  lemma ZeroReads()
    ensures NextOf(ZeroPage()) == 0 && LenOf(ZeroPage()) == 0
  {
    ZeroBytes(8);
    assert ZeroPage()[0..8] == ToLe(0, 8) && ZeroPage()[8..16] == ToLe(0, 8);
    GetAt64(ZeroPage(), 0, 0);
    GetAt64(ZeroPage(), 8, 0);
  }

  lemma {:induction false} ZeroBytes(n: nat)
    ensures ToLe(0, n) == seq(n, _ => 0)
  {
    if n > 0 {
      ZeroBytes(n - 1);
    }
  }

  lemma FirstImageReads(x: u64)
    ensures NextOf(FirstImage(x)) == 0 && LenOf(FirstImage(x)) == 1 && SlotsOf(FirstImage(x)) == [x]
  {
    hide NextOf, LenOf, SlotAt, PutU64, ZeroPage;
    ZeroReads();
    PutLen(ZeroPage(), 1);
    PutSlot(PutU64(ZeroPage(), 8, 1), 0, x);
  }

  // ---- index chains in the layout ---------------------------------------------------------

  /** The layout after page `k` of index `h` was rewritten. */
  ghost function SetIndexPage(l: Layout, h: u64, k: nat, slots: seq<u64>): Layout
    requires h in l.indexes && k < |l.indexes[h]|
  {
    l.(indexes := l.indexes[h := l.indexes[h][k := IndexPage(l.indexes[h][k].page, slots)]])
  }

  lemma IndexPageAt(v: View, sb: Superblock, l: Layout, h: u64, k: nat)
    requires Owned(v, sb, l) && h in l.indexes && k < |l.indexes[h]|
    ensures h in l.pages && |l.pages[h]| == |l.indexes[h]|
    ensures var p := l.pages[h][k];
      && l.indexes[h][k].page == p && p in v && p in l.owner && l.owner[p] == h && DataPage(p, sb.totalPages)
      && LenOf(v[p]) <= IDX_CAP && l.indexes[h][k].slots == SlotsOf(v[p])
  {
    hide LenOf, SlotsOf, NextOf;
    assert ChainHolds(v, l, h);
    assert l.pages[h][k] in l.pages[h];
  }

  lemma {:induction false} LinkedRewrite(v: View, head: u64, ps: seq<u64>, p: u64, img: Page)
    requires Linked(v, head, ps) && p in v && NextOf(img) == NextOf(v[p])
    ensures Linked(v[p := img], head, ps)
    decreases |ps|
  {
    if ps != [] {
      LinkedRewrite(v, NextOf(v[head]), ps[1..], p, img);
    }
  }

  lemma RewriteIndexPage(v: View, sb: Superblock, l: Layout, h: u64, k: nat, img: Page)
    requires Owned(v, sb, l) && h in l.indexes && k < |l.indexes[h]|
    requires var p := l.indexes[h][k].page; p in v && NextOf(img) == NextOf(v[p])
    requires LenOf(img) <= IDX_CAP
    ensures Owned(v[l.indexes[h][k].page := img], sb, SetIndexPage(l, h, k, SlotsOf(img)))
  {
    hide Partition, NextOf, LenOf, SlotsOf, BlobPages, BlobOf, Linked;
    IndexPageAt(v, sb, l, h, k);
    var p, l' := l.pages[h][k], SetIndexPage(l, h, k, SlotsOf(img));
    var w := v[p := img];
    WriteFrame(v, sb, l, p, img);
    PartitionIgnoresContents(sb, l, l');
    assert ChainHolds(v, l, h);
    LinkedRewrite(v, h, l.pages[h], p, img);
    PagesDiffer(sb, l, h);
    assert IndexPages(w, l.pages[h]);
    assert IndexOf(w, l.pages[h]) == l'.indexes[h];
    OtherChains(w, l, l', h);
  }

  lemma PagesDiffer(sb: Superblock, l: Layout, h: u64)
    requires Partition(sb, l) && h in l.pages
    ensures NoRepeats(l.pages[h])
  {
  }

  /** The one page in hand is put at the end of index `h`. */
  ghost function Extend(l: Layout, h: u64, slots: seq<u64>): Layout
    requires h in l.pages && h in l.indexes && LOOSE in l.pages && |l.pages[LOOSE]| == 1
  {
    var q := l.pages[LOOSE][0];
    Layout(l.owner[q := h], l.pages[h := l.pages[h] + [q]][LOOSE := []], l.blobs,
      l.indexes[h := l.indexes[h] + [IndexPage(q, slots)]])
  }

  lemma ExtendPartition(sb: Superblock, l: Layout, h: u64, slots: seq<u64>)
    requires Partition(sb, l) && h in l.pages && h in l.indexes && h != LOOSE && |l.pages[LOOSE]| == 1
    ensures Partition(sb, Extend(l, h, slots))
  {
    var q, l' := l.pages[LOOSE][0], Extend(l, h, slots);
    assert l.owner[q] == LOOSE;
    assert q !in l.pages[h];
    forall p | p in l'.owner
      ensures l'.owner[p] in l'.pages && p in l'.pages[l'.owner[p]]
    {
      if p == q {
        assert l'.pages[h][|l.pages[h]|] == q;
      } else {
        var i :| 0 <= i < |l.pages[l.owner[p]]| && l.pages[l.owner[p]][i] == p;
        assert l.owner[p] == LOOSE ==> i == 0;
        assert l'.pages[l.owner[p]][i] == p;
      }
    }
  }

  lemma {:induction false} LinkedExtend(v: View, w: View, head: u64, ps: seq<u64>, q: u64)
    requires Linked(v, head, ps) && ps != [] && NoRepeats(ps)
    requires Same(v, w, ps[..|ps| - 1])
    requires var last := ps[|ps| - 1]; last in w && NextOf(w[last]) == q
    requires q != 0 && q in w && NextOf(w[q]) == 0
    ensures Linked(w, head, ps + [q])
    decreases |ps|
  {
    assert (ps + [q])[1..] == ps[1..] + [q];
    if |ps| == 1 {
      assert Linked(w, q, [q]);
    } else {
      assert ps[1..][..|ps| - 2] == ps[..|ps| - 1][1..];
      LinkedExtend(v, w, NextOf(v[head]), ps[1..], q);
      assert ps[0] in ps[..|ps| - 1];
    }
  }

  /** Full last page, one fresh page in hand: linking it on extends the index. */
  lemma ExtendOwned(v: View, sb: Superblock, l: Layout, h: u64, newImg: Page, lastImg: Page)
    requires Owned(v, sb, l) && h in l.indexes && l.indexes[h] != [] && |l.pages[LOOSE]| == 1
    requires NextOf(newImg) == 0 && LenOf(newImg) <= IDX_CAP
    requires var last := l.indexes[h][|l.indexes[h]| - 1].page;
      && last in v && NextOf(lastImg) == l.pages[LOOSE][0] && LenOf(lastImg) <= IDX_CAP && LenOf(v[last]) <= IDX_CAP
      && SlotsOf(lastImg) == SlotsOf(v[last])
    ensures h in l.pages
    ensures var last := l.indexes[h][|l.indexes[h]| - 1].page;
      Owned(v[l.pages[LOOSE][0] := newImg][last := lastImg], sb, Extend(l, h, SlotsOf(newImg)))
  {
    hide Partition, NextOf, LenOf, SlotsOf, ChainHolds, Linked;
    var n := |l.indexes[h]| - 1;
    IndexPageAt(v, sb, l, h, n);
    LooseFront(v, sb, l);
    var q, last, l' := l.pages[LOOSE][0], l.pages[h][n], Extend(l, h, SlotsOf(newImg));
    var mid := v[q := newImg];
    var w := mid[last := lastImg];
    WriteFrame(v, sb, l, q, newImg);
    WriteLooseOwned(v, sb, l, q, newImg);
    WriteFrame(mid, sb, l, last, lastImg);
    HeadKinds(l, h);
    ExtendPartition(sb, l, h, SlotsOf(newImg));
    ExtendedIndex(sb, mid, l, h, q, newImg, last, lastImg);
    OtherChains(w, l, l', h);
  }

  lemma HeadKinds(l: Layout, h: u64)
    requires Heads(l) && h in l.indexes
    ensures h in l.pages && h != LOOSE && h != FREE && h !in l.blobs
  {
  }

  lemma OtherChains(w: View, l: Layout, l': Layout, h: u64)
    requires forall g :: (g in l.blobs || g in l.indexes) && g != h ==> ChainHolds(w, l, g)
    requires l'.blobs == l.blobs && l'.indexes.Keys == l.indexes.Keys && h in l'.indexes && ChainHolds(w, l', h)
    requires forall g :: (g in l.blobs || g in l.indexes) && g != h ==>
      g in l'.pages && g in l.pages && l'.pages[g] == l.pages[g]
    requires forall g :: g in l.indexes && g != h ==> l'.indexes[g] == l.indexes[g]
    ensures forall g :: g in l'.blobs || g in l'.indexes ==> ChainHolds(w, l', g)
  {
    hide Linked, BlobPages, BlobOf, IndexPages, IndexOf;
    forall g | g in l'.blobs || g in l'.indexes
      ensures ChainHolds(w, l', g)
    {
      if g != h {
        SameChain(w, l, l', g);
      }
    }
  }

  lemma ExtendedIndex(sb: Superblock, mid: View, l: Layout, h: u64, q: u64, newImg: Page, last: u64, lastImg: Page)
    requires Partition(sb, l) && h in l.indexes && h in l.pages && |l.pages[LOOSE]| == 1 && l.pages[LOOSE][0] == q
    requires h != LOOSE && h !in l.blobs && ChainHolds(mid, l, h)
    requires q in mid && mid[q] == newImg && NextOf(newImg) == 0 && LenOf(newImg) <= IDX_CAP
    requires last == l.pages[h][|l.pages[h]| - 1] && last in mid
    requires NextOf(lastImg) == q && LenOf(lastImg) <= IDX_CAP && LenOf(mid[last]) <= IDX_CAP
    requires SlotsOf(lastImg) == SlotsOf(mid[last])
    ensures ChainHolds(mid[last := lastImg], Extend(l, h, SlotsOf(newImg)), h)
  {
    hide NextOf, LenOf, SlotsOf, Linked, BlobPages, BlobOf;
    var ps, w := l.pages[h], mid[last := lastImg];
    assert l.owner[q] == LOOSE && q !in ps && q >= FIRST_DATA_PAGE;
    PagesDiffer(sb, l, h);
    assert last !in ps[..|ps| - 1];
    LinkedExtend(mid, w, h, ps, q);
    assert IndexPages(w, ps + [q]);
    assert IndexOf(w, ps + [q]) == l.indexes[h] + [IndexPage(q, SlotsOf(newImg))];
  }
}
