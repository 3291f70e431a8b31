/** Linked pages: who owns which page, and what each chain holds. */
module ChainModel {
  import opened Bytes
  import opened JournalFormat
  import opened Pager

  const CHAIN_HDR := 16
  const CHAIN_CAP := 4080
  const IDX_CAP := 510

  /** The slots of one index page, by number; `0` is a tombstone. */
  datatype IndexPage = IndexPage(page: u64, slots: seq<u64>)

  function NextOf(img: Page): u64 { GetU64(img, 0) }
  function LenOf(img: Page): u64 { GetU64(img, 8) }

  function SlotAt(img: Page, i: nat): u64
    requires i < IDX_CAP
  {
    GetU64(img, 16 + i * 8)
  }

  function SlotsOf(img: Page): (s: seq<u64>)
    requires LenOf(img) <= IDX_CAP
    ensures |s| == LenOf(img)
  {
    seq(LenOf(img), i requires 0 <= i < LenOf(img) => SlotAt(img, i))
  }

  function PayloadOf(img: Page): (s: seq<u8>)
    requires LenOf(img) <= CHAIN_CAP
  {
    img[16..16 + LenOf(img)]
  }

  // ---- pages a store writes -------------------------------------------------------------

  function BlobImage(next: u64, chunk: seq<u8>): Page
    requires |chunk| <= CHAIN_CAP
  {
    ToLe(next, 8) + ToLe(|chunk|, 8) + chunk + seq(CHAIN_CAP - |chunk|, _ => 0)
  }

  lemma BlobImageReads(next: u64, chunk: seq<u8>)
    requires |chunk| <= CHAIN_CAP
    ensures var img := BlobImage(next, chunk);
      NextOf(img) == next && LenOf(img) == |chunk| && PayloadOf(img) == chunk
  {
    var img := BlobImage(next, chunk);
    assert img[0..8] == ToLe(next, 8) && img[8..16] == ToLe(|chunk|, 8);
    GetAt64(img, 0, next);
    GetAt64(img, 8, |chunk|);
    assert img[16..16 + |chunk|] == chunk;
  }

  lemma FreeImageReads(next: u64)
    ensures NextOf(FreeImage(next)) == next
  {
    PutGet64(ZeroPage(), 0, next);
  }

  // ---- chains ---------------------------------------------------------------------------

  /** Following the links from `head` visits exactly `ps`. */
  ghost predicate Linked(v: View, head: u64, ps: seq<u64>)
    decreases |ps|
  {
    if ps == [] then head == 0
    else head == ps[0] && head != 0 && head in v && Linked(v, NextOf(v[head]), ps[1..])
  }

  ghost predicate BlobPages(v: View, ps: seq<u64>) {
    forall p :: p in ps ==> p in v && LenOf(v[p]) <= CHAIN_CAP
  }

  ghost predicate IndexPages(v: View, ps: seq<u64>) {
    forall p :: p in ps ==> p in v && LenOf(v[p]) <= IDX_CAP
  }

  ghost function BlobOf(v: View, ps: seq<u64>): seq<u8>
    requires BlobPages(v, ps)
  {
    if ps == [] then [] else PayloadOf(v[ps[0]]) + BlobOf(v, ps[1..])
  }

  ghost function IndexOf(v: View, ps: seq<u64>): (r: seq<IndexPage>)
    requires IndexPages(v, ps)
    ensures |r| == |ps|
  {
    seq(|ps|, i requires 0 <= i < |ps| => IndexPage(ps[i], SlotsOf(v[ps[i]])))
  }

  ghost predicate Same(v: View, w: View, ps: seq<u64>) {
    forall p :: p in ps && p in v ==> p in w && w[p] == v[p]
  }

  lemma {:induction false} LinkedFrame(v: View, w: View, head: u64, ps: seq<u64>)
    requires Linked(v, head, ps) && Same(v, w, ps)
    ensures Linked(w, head, ps)
    decreases |ps|
  {
    if ps != [] {
      LinkedFrame(v, w, NextOf(v[head]), ps[1..]);
    }
  }

  lemma {:induction false} BlobFrame(v: View, w: View, ps: seq<u64>)
    requires BlobPages(v, ps) && Same(v, w, ps)
    ensures BlobPages(w, ps) && BlobOf(w, ps) == BlobOf(v, ps)
  {
    if ps != [] {
      BlobFrame(v, w, ps[1..]);
    }
  }

  lemma IndexFrame(v: View, w: View, ps: seq<u64>)
    requires IndexPages(v, ps) && Same(v, w, ps)
    ensures IndexPages(w, ps) && IndexOf(w, ps) == IndexOf(v, ps)
  {
    forall i | 0 <= i < |ps|
      ensures ps[i] in w && w[ps[i]] == v[ps[i]]
    {
      assert ps[i] in ps;
    }
  }

  // ---- ownership --------------------------------------------------------------------------

  /** The owner standing for the free list, and for pages in hand within an operation. */
  const FREE: u64 := 0
  const LOOSE: u64 := 1

  /** Each page's owner, each owner's pages, and what the chains hold. */
  datatype Layout = Layout(
    owner: map<u64, u64>, pages: map<u64, seq<u64>>, blobs: map<u64, seq<u8>>, indexes: map<u64, seq<IndexPage>>)

  ghost predicate NoRepeats(ps: seq<u64>) {
    forall i, j :: 0 <= i < j < |ps| ==> ps[i] != ps[j]
  }

  /** Every page below the high-water mark has exactly one owner, which lists it once. */
  ghost predicate Partition(sb: Superblock, l: Layout) {
    && FIRST_DATA_PAGE <= sb.hwm <= sb.totalPages
    && (forall p: u64 :: p in l.owner <==> FIRST_DATA_PAGE <= p < sb.hwm)
    && FREE in l.pages && LOOSE in l.pages
    && (forall h :: h in l.pages ==> NoRepeats(l.pages[h]))
    && (forall h, i :: h in l.pages && 0 <= i < |l.pages[h]| ==>
          l.pages[h][i] in l.owner && l.owner[l.pages[h][i]] == h)
    && (forall p :: p in l.owner ==> l.owner[p] in l.pages && p in l.pages[l.owner[p]])
  }

  /** The chain of `h` is linked up and holds what the layout says. */
  ghost predicate ChainHolds(v: View, l: Layout, h: u64) {
    && h in l.pages && Linked(v, h, l.pages[h]) && l.pages[h] != []
    && (h in l.blobs ==> BlobPages(v, l.pages[h]) && BlobOf(v, l.pages[h]) == l.blobs[h])
    && (h in l.indexes ==> IndexPages(v, l.pages[h]) && IndexOf(v, l.pages[h]) == l.indexes[h])
  }

  ghost predicate Heads(l: Layout) {
    && l.blobs.Keys !! l.indexes.Keys
    && FREE !in l.blobs && LOOSE !in l.blobs && FREE !in l.indexes && LOOSE !in l.indexes
    && l.pages.Keys == l.blobs.Keys + l.indexes.Keys + {FREE, LOOSE}
  }

  ghost predicate Owned(v: View, sb: Superblock, l: Layout) {
    && Partition(sb, l) && Heads(l)
    && (forall p: u64 :: p in v <==> DataPage(p, sb.totalPages))
    && Linked(v, sb.freeHead, l.pages[FREE])
    && (forall h :: h in l.blobs || h in l.indexes ==> ChainHolds(v, l, h))
  }

  lemma ChainFrame(v: View, w: View, l: Layout, h: u64)
    requires ChainHolds(v, l, h) && Same(v, w, l.pages[h])
    ensures ChainHolds(w, l, h)
  {
    LinkedFrame(v, w, h, l.pages[h]);
    if h in l.blobs { BlobFrame(v, w, l.pages[h]); }
    if h in l.indexes { IndexFrame(v, w, l.pages[h]); }
  }

  /** Writing a page leaves the chains of every other owner as they were. */
  lemma WriteFrame(v: View, sb: Superblock, l: Layout, p: u64, img: Page)
    requires Owned(v, sb, l) && p in v
    ensures forall h :: (h in l.blobs || h in l.indexes) && (p in l.owner ==> l.owner[p] != h) ==>
      ChainHolds(v[p := img], l, h)
    ensures (p in l.owner ==> l.owner[p] != FREE) ==> Linked(v[p := img], sb.freeHead, l.pages[FREE])
  {
    forall h | (h in l.blobs || h in l.indexes) && (p in l.owner ==> l.owner[p] != h)
      ensures ChainHolds(v[p := img], l, h)
    {
      NotListed(sb, l, p, h);
      ChainFrame(v, v[p := img], l, h);
    }
    if p in l.owner ==> l.owner[p] != FREE {
      NotListed(sb, l, p, FREE);
      LinkedFrame(v, v[p := img], sb.freeHead, l.pages[FREE]);
    }
  }

  lemma NotListed(sb: Superblock, l: Layout, p: u64, h: u64)
    requires Partition(sb, l) && h in l.pages && (p in l.owner ==> l.owner[p] != h)
    ensures p !in l.pages[h]
  {
  }

  // ---- moves of pages between owners ------------------------------------------------------

  /** The head of the free list comes into hand. */
  ghost function TakeFree(l: Layout): Layout
    requires FREE in l.pages && LOOSE in l.pages && l.pages[FREE] != []
  {
    var p := l.pages[FREE][0];
    l.(owner := l.owner[p := LOOSE], pages := l.pages[FREE := l.pages[FREE][1..]][LOOSE := l.pages[LOOSE] + [p]])
  }

  /** The free list starts at a page nobody else owns. */
  lemma FreeFront(v: View, sb: Superblock, l: Layout)
    requires Owned(v, sb, l) && sb.freeHead != 0
    ensures l.pages[FREE] != [] && l.pages[FREE][0] == sb.freeHead && DataPage(sb.freeHead, sb.totalPages)
    ensures sb.freeHead in v && Linked(v, NextOf(v[sb.freeHead]), l.pages[FREE][1..])
    ensures sb.freeHead in l.owner && l.owner[sb.freeHead] == FREE && sb.freeHead !in l.pages[FREE][1..]
  {
    hide NextOf, ChainHolds;
    assert l.pages[FREE][0] == sb.freeHead;
    assert l.owner[l.pages[FREE][0]] == FREE;
  }

  lemma TakeFreeOwned(v: View, sb: Superblock, l: Layout)
    requires Owned(v, sb, l) && sb.freeHead != 0
    ensures l.pages[FREE] != [] && l.pages[FREE][0] == sb.freeHead && DataPage(sb.freeHead, sb.totalPages)
    ensures Owned(v[sb.freeHead := ZeroPage()], sb.(freeHead := NextOf(v[sb.freeHead])), TakeFree(l))
  {
    hide DataPage, NextOf, ZeroPage, ChainHolds, Partition, Linked;
    FreeFront(v, sb, l);
    var p := sb.freeHead;
    var w := v[p := ZeroPage()];
    WriteFrame(v, sb, l, p, ZeroPage());
    SameChains(w, l, TakeFree(l));
    TakeFreePartition(sb, l);
    LinkedFrame(v, w, NextOf(v[p]), l.pages[FREE][1..]);
    PartitionIgnoresFreeHead(sb, NextOf(v[p]), TakeFree(l));
  }

  lemma PartitionIgnoresFreeHead(sb: Superblock, head: u64, l: Layout)
    requires Partition(sb.(freeHead := 0), l)
    ensures Partition(sb.(freeHead := head), l)
  {
  }

  /** Chains that keep their pages and contents keep holding. */
  lemma SameChains(v: View, l: Layout, l': Layout)
    requires l'.blobs == l.blobs && l'.indexes == l.indexes
    requires forall h :: h in l.blobs || h in l.indexes ==>
      h in l.pages && h in l'.pages && l'.pages[h] == l.pages[h] && ChainHolds(v, l, h)
    ensures forall h :: h in l.blobs || h in l.indexes ==> ChainHolds(v, l', h)
  {
  }

  lemma TakeFreePartition(sb: Superblock, l: Layout)
    requires Partition(sb, l) && l.pages[FREE] != []
    ensures Partition(sb.(freeHead := 0), TakeFree(l))
  {
    var p, l' := l.pages[FREE][0], TakeFree(l);
    assert l.owner[p] == FREE && p !in l.pages[LOOSE];
    forall q | q in l'.owner
      ensures l'.owner[q] in l'.pages && q in l'.pages[l'.owner[q]]
    {
      if q == p {
        assert l'.pages[LOOSE][|l.pages[LOOSE]|] == p;
      } else {
        var i :| 0 <= i < |l.pages[l.owner[q]]| && l.pages[l.owner[q]][i] == q;
        if l.owner[q] == FREE {
          assert l'.pages[FREE][i - 1] == q;
        } else {
          assert l'.pages[l.owner[q]][i] == q;
        }
      }
    }
  }

  /** The first never-used page comes into hand. */
  ghost function TakeNew(l: Layout, p: u64): Layout
    requires LOOSE in l.pages
  {
    l.(owner := l.owner[p := LOOSE], pages := l.pages[LOOSE := l.pages[LOOSE] + [p]])
  }

  lemma TakeNewOwned(v: View, sb: Superblock, l: Layout)
    requires Owned(v, sb, l) && sb.hwm < sb.totalPages
    ensures Owned(v[sb.hwm := ZeroPage()], sb.(hwm := sb.hwm + 1), TakeNew(l, sb.hwm))
  {
    hide ZeroPage, ChainHolds;
    var p, l' := sb.hwm, TakeNew(l, sb.hwm);
    WriteFrame(v, sb, l, p, ZeroPage());
    SameChains(v[p := ZeroPage()], l, l');
    TakeNewPartition(sb, l);
  }

  lemma TakeNewPartition(sb: Superblock, l: Layout)
    requires Partition(sb, l) && sb.hwm < sb.totalPages
    ensures Partition(sb.(hwm := sb.hwm + 1), TakeNew(l, sb.hwm))
  {
    var p, l' := sb.hwm, TakeNew(l, sb.hwm);
    forall q | q in l'.owner
      ensures l'.owner[q] in l'.pages && q in l'.pages[l'.owner[q]]
    {
      if q == p {
        assert l'.pages[LOOSE][|l.pages[LOOSE]|] == p;
      } else {
        var i :| 0 <= i < |l.pages[l.owner[q]]| && l.pages[l.owner[q]][i] == q;
        assert l'.pages[l.owner[q]][i] == q;
      }
    }
  }

  /** The first page in hand goes to the front of the free list. */
  ghost function Give(l: Layout): Layout
    requires FREE in l.pages && LOOSE in l.pages && l.pages[LOOSE] != []
  {
    var p := l.pages[LOOSE][0];
    l.(owner := l.owner[p := FREE], pages := l.pages[FREE := [p] + l.pages[FREE]][LOOSE := l.pages[LOOSE][1..]])
  }

  lemma LooseFront(v: View, sb: Superblock, l: Layout)
    requires Owned(v, sb, l) && l.pages[LOOSE] != []
    ensures var p := l.pages[LOOSE][0];
      p in v && DataPage(p, sb.totalPages) && p in l.owner && l.owner[p] == LOOSE
  {
    hide ChainHolds;
    assert l.owner[l.pages[LOOSE][0]] == LOOSE;
  }

  lemma GiveOwned(v: View, sb: Superblock, l: Layout)
    requires Owned(v, sb, l) && l.pages[LOOSE] != []
    ensures var p := l.pages[LOOSE][0];
      DataPage(p, sb.totalPages) && Owned(v[p := FreeImage(sb.freeHead)], sb.(freeHead := p), Give(l))
  {
    hide FreeImage, ChainHolds, NextOf, Partition, DataPage;
    LooseFront(v, sb, l);
    var p, l' := l.pages[LOOSE][0], Give(l);
    var w := v[p := FreeImage(sb.freeHead)];
    WriteFrame(v, sb, l, p, FreeImage(sb.freeHead));
    SameChains(w, l, l');
    GivePartition(sb, l);
    FreeImageReads(sb.freeHead);
    assert l'.pages[FREE][1..] == l.pages[FREE];
    GiveNonZero(sb, l);
  }

  lemma GiveNonZero(sb: Superblock, l: Layout)
    requires Partition(sb, l) && l.pages[LOOSE] != []
    ensures l.pages[LOOSE][0] != 0 && Partition(sb.(freeHead := l.pages[LOOSE][0]), Give(l))
  {
    GivePartition(sb, l);
    assert l.pages[LOOSE][0] in l.owner;
  }

  lemma GivePartition(sb: Superblock, l: Layout)
    requires Partition(sb, l) && l.pages[LOOSE] != []
    ensures Partition(sb, Give(l))
  {
    var p, l' := l.pages[LOOSE][0], Give(l);
    assert l.owner[p] == LOOSE && p !in l.pages[FREE];
    forall q | q in l'.owner
      ensures l'.owner[q] in l'.pages && q in l'.pages[l'.owner[q]]
    {
      if q == p {
        assert l'.pages[FREE][0] == p;
      } else {
        var i :| 0 <= i < |l.pages[l.owner[q]]| && l.pages[l.owner[q]][i] == q;
        if l.owner[q] == FREE {
          assert l'.pages[FREE][i + 1] == q;
        } else if l.owner[q] == LOOSE {
          assert l'.pages[LOOSE][i - 1] == q;
        } else {
          assert l'.pages[l.owner[q]][i] == q;
        }
      }
    }
  }

  lemma WriteLooseOwned(v: View, sb: Superblock, l: Layout, p: u64, img: Page)
    requires Owned(v, sb, l) && p in l.owner && l.owner[p] == LOOSE
    ensures p in v && Owned(v[p := img], sb, l)
  {
    hide ChainHolds;
    WriteFrame(v, sb, l, p, img);
  }

  /** The owners once all of `from`'s pages belong to `to`. */
  ghost function Reassign(owner: map<u64, u64>, from: u64, to: u64): map<u64, u64> {
    map p | p in owner :: if owner[p] == from then to else owner[p]
  }

  /** The pages in hand become the chain of `h`. */
  ghost function Adopt(l: Layout, h: u64): Layout
    requires LOOSE in l.pages
  {
    l.(owner := Reassign(l.owner, LOOSE, h), pages := l.pages[h := l.pages[LOOSE]][LOOSE := []])
  }

  lemma AdoptPartition(sb: Superblock, l: Layout, h: u64)
    requires Partition(sb, l) && h !in l.pages
    ensures Partition(sb, Adopt(l, h))
  {
    var l' := Adopt(l, h);
    forall g, i | g in l'.pages && 0 <= i < |l'.pages[g]|
      ensures l'.pages[g][i] in l'.owner && l'.owner[l'.pages[g][i]] == g
    {
      if g == h {
        assert l.owner[l.pages[LOOSE][i]] == LOOSE;
      } else {
        assert l.owner[l.pages[g][i]] == g;
      }
    }
  }

  /** A chain untouched by a change of layout still holds. */
  lemma SameChain(v: View, l: Layout, l': Layout, g: u64)
    requires ChainHolds(v, l, g) && g in l'.pages && l'.pages[g] == l.pages[g]
    requires g in l'.blobs ==> g in l.blobs && l'.blobs[g] == l.blobs[g]
    requires g in l'.indexes ==> g in l.indexes && l'.indexes[g] == l.indexes[g]
    ensures ChainHolds(v, l', g)
  {
  }

  lemma HeadsOwnThemselves(v: View, sb: Superblock, l: Layout)
    requires Owned(v, sb, l)
    ensures forall h :: h in l.blobs || h in l.indexes ==> h in l.owner && l.owner[h] == h
  {
    forall h | h in l.blobs || h in l.indexes
      ensures h in l.owner && l.owner[h] == h
    {
      assert ChainHolds(v, l, h) && l.pages[h][0] == h;
    }
  }

  lemma FreshHead(v: View, sb: Superblock, l: Layout)
    requires Owned(v, sb, l) && l.pages[LOOSE] != []
    ensures l.pages[LOOSE][0] !in l.pages && l.pages[LOOSE][0] >= FIRST_DATA_PAGE
  {
    HeadsOwnThemselves(v, sb, l);
    assert l.owner[l.pages[LOOSE][0]] == LOOSE;
  }

  lemma AdoptBlob(v: View, sb: Superblock, l: Layout, bytes: seq<u8>)
    requires Owned(v, sb, l) && l.pages[LOOSE] != []
    requires Linked(v, l.pages[LOOSE][0], l.pages[LOOSE])
    requires BlobPages(v, l.pages[LOOSE]) && BlobOf(v, l.pages[LOOSE]) == bytes
    ensures var h := l.pages[LOOSE][0];
      h !in l.pages && h >= FIRST_DATA_PAGE && Owned(v, sb, Adopt(l, h).(blobs := l.blobs[h := bytes]))
  {
    hide Partition, Linked, BlobPages, BlobOf;
    var h := l.pages[LOOSE][0];
    FreshHead(v, sb, l);
    AdoptPartition(sb, l, h);
    var l' := Adopt(l, h).(blobs := l.blobs[h := bytes]);
    PartitionIgnoresContents(sb, Adopt(l, h), l');
    forall g | g in l'.blobs || g in l'.indexes
      ensures ChainHolds(v, l', g)
    {
      if g != h {
        SameChain(v, l, l', g);
      }
    }
  }

  lemma PartitionIgnoresContents(sb: Superblock, l: Layout, l': Layout)
    requires Partition(sb, l) && l'.owner == l.owner && l'.pages == l.pages
    ensures Partition(sb, l')
  {
  }

  /** The chain of `h` is taken apart: its pages come into hand. */
  ghost function Release(l: Layout, h: u64): Layout
    requires h in l.pages
  {
    Layout(Reassign(l.owner, h, LOOSE), (l.pages - {h})[LOOSE := l.pages[h]], l.blobs - {h}, l.indexes - {h})
  }

  lemma ReleasePartition(sb: Superblock, l: Layout, h: u64)
    requires Partition(sb, l) && h in l.pages && h != FREE && h != LOOSE && l.pages[LOOSE] == []
    ensures Partition(sb, Release(l, h))
  {
    var l' := Release(l, h);
    forall g, i | g in l'.pages && 0 <= i < |l'.pages[g]|
      ensures l'.pages[g][i] in l'.owner && l'.owner[l'.pages[g][i]] == g
    {
      if g == LOOSE {
        assert l.owner[l.pages[h][i]] == h;
      } else {
        assert l.owner[l.pages[g][i]] == g;
      }
    }
  }

  lemma ReleaseHeads(sb: Superblock, l: Layout, h: u64)
    requires Heads(l) && (h in l.blobs || h in l.indexes)
    ensures h in l.pages && Heads(Release(l, h))
  {
  }

  lemma ReleaseOwned(v: View, sb: Superblock, l: Layout, h: u64)
    requires Owned(v, sb, l) && (h in l.blobs || h in l.indexes) && l.pages[LOOSE] == []
    ensures h in l.pages && Owned(v, sb, Release(l, h)) && Linked(v, h, l.pages[h])
  {
    hide Partition, Linked, BlobPages, BlobOf, IndexPages, IndexOf, Heads, Reassign;
    ReleaseHeads(sb, l, h);
    ReleasePartition(sb, l, h);
    ReleaseChains(v, sb, l, h);
  }

  lemma ReleaseChains(v: View, sb: Superblock, l: Layout, h: u64)
    requires Owned(v, sb, l) && (h in l.blobs || h in l.indexes)
    ensures h in l.pages && Linked(v, h, l.pages[h])
    ensures var l' := Release(l, h);
      && Linked(v, sb.freeHead, l'.pages[FREE])
      && forall g :: g in l'.blobs || g in l'.indexes ==> ChainHolds(v, l', g)
  {
    hide Partition, Linked, BlobPages, BlobOf, IndexPages, IndexOf;
    assert ChainHolds(v, l, h);
    var l' := Release(l, h);
    forall g | g in l'.blobs || g in l'.indexes
      ensures ChainHolds(v, l', g)
    {
      SameChain(v, l, l', g);
    }
  }
}
