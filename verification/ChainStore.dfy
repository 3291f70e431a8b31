/** The chain operations of the store. */
module ChainStore {
  import opened Errors
  import opened Bytes
  import opened JournalFormat
  import opened Pager
  import opened ChainModel
  import opened Chains

  /** The live rows an index lists, in order. */
  function Entries(ix: seq<IndexPage>): seq<(RowId, u64)> {
    if ix == [] then [] else PageEntries(ix[0].page, ix[0].slots, 0) + Entries(ix[1..])
  }

  function PageEntries(page: u64, slots: seq<u64>, from: nat): seq<(RowId, u64)>
    requires from <= |slots|
    decreases |slots| - from
  {
    if from == |slots| then []
    else if slots[from] != 0 then [(RowId(page, from), slots[from])] + PageEntries(page, slots, from + 1)
    else PageEntries(page, slots, from + 1)
  }

  lemma {:induction false} EntriesAppend(a: seq<IndexPage>, b: seq<IndexPage>)
    ensures Entries(a + b) == Entries(a) + Entries(b)
  {
    if a == [] {
      assert a + b == b;
    } else {
      EntriesAppend(a[1..], b);
      assert (a + b)[1..] == a[1..] + b;
    }
  }

  /** The index with one more slot at the end, on `fresh` when the last page is full. */
  function Appended(ix: seq<IndexPage>, fresh_: u64, x: u64): seq<IndexPage>
    requires ix != []
  {
    var n := |ix| - 1;
    if |ix[n].slots| < IDX_CAP then ix[n := IndexPage(ix[n].page, ix[n].slots + [x])]
    else ix + [IndexPage(fresh_, [x])]
  }

  function AppendedId(ix: seq<IndexPage>, fresh_: u64): RowId
    requires ix != []
  {
    var n := |ix| - 1;
    if |ix[n].slots| < IDX_CAP then RowId(ix[n].page, |ix[n].slots|) else RowId(fresh_, 0)
  }

  /** `id` is a slot of page `k` of the index. */
  predicate SlotIn(ix: seq<IndexPage>, k: nat, id: RowId) {
    k < |ix| && ix[k].page == id.page && id.slot < |ix[k].slots|
  }

  function WithSlot(ix: seq<IndexPage>, k: nat, id: RowId, x: u64): seq<IndexPage>
    requires SlotIn(ix, k, id)
  {
    ix[k := IndexPage(id.page, ix[k].slots[id.slot := x])]
  }

  /** What no chain operation touches in the superblock. */
  function Fixed(sb: Superblock): Superblock {
    sb.(hwm := 0, freeHead := 0)
  }

  /** No page is left to allocate. */
  predicate Full(sb: Superblock) {
    sb.freeHead == 0 && sb.hwm >= sb.totalPages
  }

  class ChainHeap {
    const pager: Pager
    ghost var layout: Layout

    /** Every page is accounted for; `layout.pages[LOOSE]` are in hand. */
    ghost predicate InHand()
      reads this, pager, pager.dev
    {
      pager.Valid() && Owned(pager.Contents(), pager.sb, layout)
    }

    ghost predicate Valid()
      reads this, pager, pager.dev
    {
      InHand() && layout.pages[LOOSE] == []
    }

    constructor (pager: Pager, ghost layout: Layout)
      ensures this.pager == pager && this.layout == layout
    {
      this.pager, this.layout := pager, layout;
    }

    /** The superblock names another catalog. */
    method SetCatalogHead(head: u64)
      requires Valid()
      modifies pager`sb
      ensures Valid() && pager.sb == old(pager.sb).(catalogHead := head)
    {
      OwnedIgnores(pager.Contents(), pager.sb, pager.sb.(catalogHead := head), layout);
      pager.sb := pager.sb.(catalogHead := head);
    }

    /** The bytes of a blob chain. */
    method ReadChain(head: u64) returns (r: Result<seq<u8>>)
      requires Valid() && (head == 0 || head in layout.blobs)
      modifies pager`cache
      ensures Valid()
      ensures r == Success(if head == 0 then [] else layout.blobs[head])
    {
      hide NextOf, LenOf, PayloadOf, Linked, BlobPages, BlobOf, Owned, Pager.Valid, Pager.Contents;
      StartBlob(head);
      ghost var v, bytes := pager.Contents(), if head == 0 then [] else layout.blobs[head];
      ghost var rest := if head == 0 then [] else layout.pages[head];
      var out, p := [], head;
      while p != 0
        invariant Valid() && pager.Contents() == v
        invariant Linked(v, p, rest) && BlobPages(v, rest) && bytes == out + BlobOf(v, rest)
        decreases |rest|
      {
        NextPage(v, p, rest);
        BlobStep(v, rest);
        PageInView(v, pager.sb, layout, p);
        var page := pager.ReadPage(p);
        if LenOf(page.value) > CHAIN_CAP { return Failure(Corrupt("chain length")); }
        assert out + (PayloadOf(page.value) + BlobOf(v, rest[1..])) ==
          out + PayloadOf(page.value) + BlobOf(v, rest[1..]);
        out := out + PayloadOf(page.value);
        p := NextOf(page.value);
        rest := rest[1..];
      }
      LinkedEnd(v, rest);
      BlobEnd(v, rest);
      assert out + [] == out;
      return Success(out);
    }

    lemma StartBlob(head: u64)
      requires Valid() && (head == 0 || head in layout.blobs)
      ensures head != 0 ==> head in layout.pages
      ensures var rest := if head == 0 then [] else layout.pages[head];
        && Linked(pager.Contents(), head, rest) && BlobPages(pager.Contents(), rest)
        && (if head == 0 then [] else layout.blobs[head]) == [] + BlobOf(pager.Contents(), rest)
    {
      if head != 0 {
        assert ChainHolds(pager.Contents(), layout, head);
      }
    }

    /** One page from the allocator into hand. */
    method AllocInHand() returns (r: Result<u64>)
      requires InHand()
      modifies this, pager`sb, pager`dirty, pager`cache
      ensures pager.Valid() && Fixed(pager.sb) == old(Fixed(pager.sb))
      ensures r.Success? ==>
        && InHand() && LooseIn(layout) && layout.pages[LOOSE] == old(layout.pages[LOOSE]) + [r.value]
        && layout.blobs == old(layout.blobs) && layout.indexes == old(layout.indexes)
        && pager.Contents() == old(pager.Contents())[r.value := ZeroPage()] && pager.dirty != map[]
        && forall h :: h in layout.blobs || h in layout.indexes ==> layout.pages[h] == old(layout.pages[h])
      ensures r.Failure? ==> r.error == OutOfSpace && Full(pager.sb)
    {
      hide Linked, ZeroPage, Partition, ChainHolds;
      ghost var v, sb, l := pager.Contents(), pager.sb, layout;
      AllocAllowed(v, sb, l);
      r := pager.AllocPage();
      if r.Success? {
        if sb.freeHead != 0 {
          TakeFreeOwned(v, sb, l);
          layout := TakeFree(l);
        } else {
          TakeNewOwned(v, sb, l);
          layout := TakeNew(l, sb.hwm);
        }
      }
    }

    /** `n` pages into hand. */
    method AllocMany(n: nat) returns (r: Result<seq<u64>>)
      requires Valid()
      modifies this, pager`sb, pager`dirty, pager`cache
      ensures pager.Valid() && Fixed(pager.sb) == old(Fixed(pager.sb))
      ensures r.Success? ==>
        && |r.value| == n && InHand() && LooseIn(layout) && layout.pages[LOOSE] == r.value
        && (n > 0 ==> pager.dirty != map[])
        && layout.blobs == old(layout.blobs) && layout.indexes == old(layout.indexes)
      ensures r.Failure? ==> r.error == OutOfSpace && Full(pager.sb)
    {
      hide Linked, NextOf, Owned, ZeroPage;
      var pages: seq<u64> := [];
      HasLoose(pager.Contents(), pager.sb, layout);
      for i := 0 to n
        invariant InHand() && LooseIn(layout) && layout.pages[LOOSE] == pages && |pages| == i
        invariant layout.blobs == old(layout.blobs) && layout.indexes == old(layout.indexes)
        invariant Fixed(pager.sb) == old(Fixed(pager.sb)) && (i > 0 ==> pager.dirty != map[])
      {
        var p := AllocInHand();
        if p.Failure? { return Failure(p.error); }
        pages := pages + [p.value];
      }
      return Success(pages);
    }

    /** The chunks of `bytes` on the pages in hand. */
    method LayOut(pages: seq<u64>, bytes: seq<u8>)
      requires InHand() && LooseIn(layout) && layout.pages[LOOSE] == pages && |pages| == ChunkCount(bytes)
      modifies pager`dirty
      ensures InHand() && Laid(pager.Contents(), bytes, pages, |pages|) && pager.dirty != map[]
    {
      hide Linked, NextOf, Owned, ZeroPage, ChunkImage, Fixed;
      for i := 0 to |pages|
        invariant InHand() && Laid(pager.Contents(), bytes, pages, i) && (i > 0 ==> pager.dirty != map[])
      {
        LooseAt(pager.Contents(), pager.sb, layout, i);
        WriteLooseOwned(pager.Contents(), pager.sb, layout, pages[i], ChunkImage(bytes, pages, i));
        pager.WritePage(pages[i], ChunkImage(bytes, pages, i));
      }
    }

    /** Bytes split over freshly allocated pages. */
    method WriteChain(bytes: seq<u8>) returns (r: Result<u64>)
      requires Valid()
      modifies this, pager`sb, pager`dirty, pager`cache
      ensures pager.Valid() && Fixed(pager.sb) == old(Fixed(pager.sb))
      ensures r.Success? ==>
        && Valid() && pager.dirty != map[] && r.value != 0
        && r.value !in old(layout.blobs) && r.value !in old(layout.indexes)
        && layout.blobs == old(layout.blobs)[r.value := bytes] && layout.indexes == old(layout.indexes)
      ensures r.Failure? ==> r.error == OutOfSpace && Full(pager.sb)
    {
      hide Linked, NextOf, Owned, ZeroPage, Laid, ChunkCount;
      var pages := AllocMany(ChunkCount(bytes));
      if pages.Failure? { return Failure(pages.error); }
      LayOut(pages.value, bytes);
      AdoptChain(pager.Contents(), pager.sb, layout, bytes);
      layout := Adopt(layout, pages.value[0]).(blobs := layout.blobs[pages.value[0] := bytes]);
      return Success(pages.value[0]);
    }

    /** Every page of the chain goes to the free list. */
    method FreeChain(head: u64) returns (r: Result<()>)
      requires Valid() && (head in layout.blobs || head in layout.indexes)
      modifies this, pager`sb, pager`dirty, pager`cache
      ensures Valid() && Fixed(pager.sb) == old(Fixed(pager.sb)) && pager.dirty != map[]
      ensures r.Success?
      ensures layout.blobs == old(layout.blobs) - {head} && layout.indexes == old(layout.indexes) - {head}
    {
      hide Linked, NextOf, Owned, FreeImage, Partition, Pager.Valid, Pager.Contents;
      ReleaseOwned(pager.Contents(), pager.sb, layout, head);
      ReleaseStart(pager.Contents(), pager.sb, layout, head);
      layout := Release(layout, head);
      HasLoose(pager.Contents(), pager.sb, layout);
      ghost var blobs, indexes := layout.blobs, layout.indexes;
      var p := head;
      while p != 0
        invariant InHand() && LooseIn(layout) && Fixed(pager.sb) == old(Fixed(pager.sb))
        invariant layout.blobs == blobs && layout.indexes == indexes
        invariant Linked(pager.Contents(), p, layout.pages[LOOSE])
        invariant pager.dirty != map[] || p != 0
        decreases |layout.pages[LOOSE]|
      {
        ghost var v, l := pager.Contents(), layout;
        NextPage(v, p, l.pages[LOOSE]);
        LooseAt(v, pager.sb, l, 0);
        HasLoose(v, pager.sb, l);
        var page := pager.ReadPage(p);
        var next := NextOf(page.value);
        GiveOwned(v, pager.sb, l);
        GiveRest(v, pager.sb, l, FreeImage(pager.sb.freeHead));
        pager.FreePage(p);
        assert p in pager.dirty;
        layout := Give(l);
        p := next;
      }
      LinkedEnd(pager.Contents(), layout.pages[LOOSE]);
      return Success(());
    }

    /** A fresh index without rows. */
    method NewIndex() returns (r: Result<u64>)
      requires Valid()
      modifies this, pager`sb, pager`dirty, pager`cache
      ensures pager.Valid() && Fixed(pager.sb) == old(Fixed(pager.sb))
      ensures r.Success? ==>
        && Valid() && pager.dirty != map[] && r.value != 0
        && r.value !in old(layout.blobs) && r.value !in old(layout.indexes)
        && layout.blobs == old(layout.blobs) && r.value in layout.indexes
        && layout.indexes[r.value] != [] && Entries(layout.indexes[r.value]) == []
        && layout.indexes == old(layout.indexes)[r.value := layout.indexes[r.value]]
      ensures r.Failure? ==> r.error == OutOfSpace && Full(pager.sb)
    {
      hide Owned, Entries;
      r := WriteChain([]);
      if r.Failure? { return; }
      // An all-zero page with length 0 reads as an index page without slots.
      ghost var ix := EmptyIndex(pager.Contents(), pager.sb, layout, r.value);
      layout := layout.(blobs := layout.blobs - {r.value}, indexes := layout.indexes[r.value := ix]);
    }

    /** The live rows of an index with their handles, in slot order. */
    method IndexCollect(head: u64) returns (r: Result<seq<(RowId, u64)>>)
      requires Valid() && head in layout.indexes
      modifies pager`cache
      ensures Valid()
      ensures r == Success(Entries(layout.indexes[head]))
    {
      hide NextOf, LenOf, SlotAt, Owned, Pager.Valid, Pager.Contents, SlotsOf;
      ghost var v, ix := pager.Contents(), layout.indexes[head];
      var out: seq<(RowId, u64)>, p := [], head;
      ghost var k := 0;
      IndexStart(v, pager.sb, layout, head);
      assert ix[0..] == ix;
      while p != 0
        invariant Valid() && pager.Contents() == v && layout.indexes[head] == ix
        invariant k <= |ix| && p == (if k < |ix| then ix[k].page else 0)
        invariant out + Entries(ix[k..]) == Entries(ix)
        decreases |ix| - k
      {
        IndexNext(v, pager.sb, layout, head, k);
        var page := pager.ReadPage(p);
        if page.Failure? { return Failure(Io); }
        var next := NextOf(page.value);
        var here := SlotEntries(p, page.value);
        assert ix[k..][1..] == ix[k + 1..];
        assert out + (here + Entries(ix[k + 1..])) == out + here + Entries(ix[k + 1..]);
        out := out + here;
        p := next;
        k := k + 1;
      }
      IndexNonZero(v, pager.sb, layout, head, k);
      assert out + [] == out;
      return Success(out);
    }

    /** The live slots of one page. */
    method SlotEntries(p: u64, page: Page) returns (out: seq<(RowId, u64)>)
      requires LenOf(page) <= IDX_CAP
      ensures out == PageEntries(p, SlotsOf(page), 0)
    {
      hide NextOf, LenOf, SlotAt;
      ghost var slots := SlotsOf(page);
      out := [];
      assert out + PageEntries(p, slots, 0) == PageEntries(p, slots, 0);
      for s := 0 to LenOf(page)
        invariant out + PageEntries(p, slots, s) == PageEntries(p, slots, 0)
      {
        var rowHead := SlotAt(page, s);
        assert slots[s] == rowHead;
        if rowHead != 0 {
          ghost var was := out;
          out := out + [(RowId(p, s), rowHead)];
          assert was + ([(RowId(p, s), rowHead)] + PageEntries(p, slots, s + 1)) == out + PageEntries(p, slots, s + 1);
        }
      }
      assert out + [] == out;
    }

    /** Put a row at the end of an index, on a further page when the last one is full. */
    method IndexAppend(head: u64, rowHead: u64) returns (r: Result<RowId>)
      requires Valid() && head in layout.indexes && layout.indexes[head] != []
      modifies this, pager`sb, pager`dirty, pager`cache
      ensures pager.Valid() && Fixed(pager.sb) == old(Fixed(pager.sb))
      ensures r.Success? ==>
        && Valid() && pager.dirty != map[] && layout.blobs == old(layout.blobs)
        && layout.indexes == old(layout.indexes)[head := Appended(old(layout.indexes[head]), r.value.page, rowHead)]
        && r.value == AppendedId(old(layout.indexes[head]), r.value.page)
      ensures r.Failure? ==> r.error == OutOfSpace && Full(pager.sb)
    {
      hide NextOf, LenOf, SlotAt, SlotsOf, Linked, Partition, Heads, ChainHolds, Owned, PushImage;
      ghost var v, ix := pager.Contents(), layout.indexes[head];
      ghost var k := 0;
      var p := head;
      IndexStart(v, pager.sb, layout, head);
      while true
        invariant Valid() && pager.Contents() == v && layout == old(layout) && pager.sb == old(pager.sb)
        invariant k < |ix| && p == ix[k].page
        decreases |ix| - k
      {
        IndexNext(v, pager.sb, layout, head, k);
        var page := pager.ReadPage(p);
        var next := NextOf(page.value);
        if next == 0 {
          IndexNonZero(v, pager.sb, layout, head, k + 1);
          r := PushRow(head, k, p, page.value, rowHead);
          return;
        }
        p := next;
        k := k + 1;
      }
    }

    /** The last page `page` of index `head` takes the row, or a new page linked behind it. */
    method PushRow(head: u64, ghost k: nat, last: u64, page: Page, rowHead: u64) returns (r: Result<RowId>)
      requires Valid() && head in layout.indexes && k + 1 == |layout.indexes[head]|
      requires last == layout.indexes[head][k].page && last in pager.Contents() && page == pager.Contents()[last]
      modifies this, pager`sb, pager`dirty, pager`cache
      ensures pager.Valid() && Fixed(pager.sb) == old(Fixed(pager.sb))
      ensures r.Success? ==>
        && Valid() && pager.dirty != map[] && layout.blobs == old(layout.blobs)
        && layout.indexes == old(layout.indexes)[head := Appended(old(layout.indexes[head]), r.value.page, rowHead)]
        && r.value == AppendedId(old(layout.indexes[head]), r.value.page)
      ensures r.Failure? ==> r.error == OutOfSpace && Full(pager.sb)
    {
      hide NextOf, LenOf, SlotAt, SlotsOf, Linked, Partition, Heads, ChainHolds, Owned, PushImage, FirstImage, PutU64;
      ghost var v, sb, l := pager.Contents(), pager.sb, layout;
      IndexPageAt(v, sb, l, head, k);
      if LenOf(page) < IDX_CAP {
        PushImageReads(page, rowHead);
        RewriteIndexPage(v, sb, l, head, k, PushImage(page, rowHead));
        pager.WritePage(last, PushImage(page, rowHead));
        layout := SetIndexPage(l, head, k, SlotsOf(page) + [rowHead]);
        return Success(RowId(last, LenOf(page)));
      }
      r := LinkFresh(head, k, last, page, rowHead);
    }

    method LinkFresh(head: u64, ghost k: nat, last: u64, page: Page, rowHead: u64) returns (r: Result<RowId>)
      requires Valid() && head in layout.indexes && k + 1 == |layout.indexes[head]|
      requires last == layout.indexes[head][k].page && last in pager.Contents() && page == pager.Contents()[last]
      requires LenOf(page) <= IDX_CAP
      modifies this, pager`sb, pager`dirty, pager`cache
      ensures pager.Valid() && Fixed(pager.sb) == old(Fixed(pager.sb))
      ensures r.Success? ==>
        && Valid() && pager.dirty != map[] && layout.blobs == old(layout.blobs) && r.value.slot == 0
        && layout.indexes ==
          old(layout.indexes)[head := old(layout.indexes[head]) + [IndexPage(r.value.page, [rowHead])]]
      ensures r.Failure? ==> r.error == OutOfSpace && Full(pager.sb)
    {
      hide NextOf, LenOf, SlotAt, SlotsOf, Owned, FirstImage, PutU64, Pager.Valid, Pager.Contents, Fixed, ZeroPage;
      HasLoose(pager.Contents(), pager.sb, layout);
      var fresh_ := AllocInHand();
      if fresh_.Failure? { return Failure(fresh_.error); }
      var np := fresh_.value;
      LastStays(pager.Contents(), pager.sb, layout, head, k, np);
      FirstImageReads(rowHead);
      LinkImageReads(page, np);
      ExtendOwned(pager.Contents(), pager.sb, layout, head, FirstImage(rowHead), PutU64(page, 0, np));
      pager.WritePage(np, FirstImage(rowHead));
      pager.WritePage(last, PutU64(page, 0, np));
      layout := Extend(layout, head, [rowHead]);
      return Success(RowId(np, 0));
    }

    /** Overwrite a slot; a slot the page does not have is no row. */
    method IndexSet(id: RowId, value: u64, ghost head: u64, ghost k: nat) returns (r: Result<()>)
      requires Valid() && head in layout.indexes && k < |layout.indexes[head]| &&
        layout.indexes[head][k].page == id.page
      modifies this, pager`dirty, pager`cache
      ensures Valid() && layout.blobs == old(layout.blobs)
      ensures !SlotIn(old(layout.indexes[head]), k, id) ==>
        r.Failure? && r.error.NotFound? && layout == old(layout) && pager.dirty == old(pager.dirty)
      ensures SlotIn(old(layout.indexes[head]), k, id) ==>
        && r.Success? && pager.dirty != map[]
        && layout.indexes == old(layout.indexes)[head := WithSlot(old(layout.indexes[head]), k, id, value)]
    {
      hide NextOf, LenOf, SlotAt, SlotsOf, Linked, Partition, Heads, ChainHolds, Owned, PutU64;
      ghost var v := pager.Contents();
      IndexPageAt(v, pager.sb, layout, head, k);
      IndexNext(v, pager.sb, layout, head, k);
      var page := pager.ReadPage(id.page);
      if id.slot >= LenOf(page.value) {
        return Failure(NotFound("row"));
      }
      SetImageReads(page.value, id.slot, value);
      RewriteIndexPage(v, pager.sb, layout, head, k, PutU64(page.value, 16 + id.slot * 8, value));
      pager.WritePage(id.page, PutU64(page.value, 16 + id.slot * 8, value));
      layout := SetIndexPage(layout, head, k, SlotsOf(page.value)[id.slot := value]);
      return Success(());
    }

    /** The row a handle names, unless its slot is missing or a tombstone. */
    method RowHeadAt(id: RowId, ghost head: u64, ghost k: nat) returns (r: Result<u64>)
      requires Valid() && head in layout.indexes && k < |layout.indexes[head]| &&
        layout.indexes[head][k].page == id.page
      modifies pager`cache
      ensures Valid()
      ensures r == if SlotIn(layout.indexes[head], k, id) && layout.indexes[head][k].slots[id.slot] != 0
        then Success(layout.indexes[head][k].slots[id.slot])
        else Failure(NotFound("row"))
    {
      hide NextOf, LenOf, SlotAt, Linked, Partition, Heads, ChainHolds, Owned;
      IndexNext(pager.Contents(), pager.sb, layout, head, k);
      var page := pager.ReadPage(id.page);
      if id.slot >= LenOf(page.value) {
        return Failure(NotFound("row"));
      }
      assert SlotAt(page.value, id.slot) == layout.indexes[head][k].slots[id.slot];
      var h := SlotAt(page.value, id.slot);
      if h == 0 {
        return Failure(NotFound("row"));
      }
      return Success(h);
    }
  }

  /** Ownership does not depend on the catalog head or the generation. */
  lemma OwnedIgnores(v: View, a: Superblock, b: Superblock, l: Layout)
    requires Owned(v, a, l) && b == a.(catalogHead := b.catalogHead, generation := b.generation)
    ensures Owned(v, b, l)
  {
    hide ChainHolds;
  }

  lemma HeadsApart(v: View, sb: Superblock, l: Layout)
    requires Owned(v, sb, l)
    ensures l.blobs.Keys !! l.indexes.Keys && 0 !in l.blobs && 0 !in l.indexes
  {
  }

  lemma IndexPagesDiffer(v: View, sb: Superblock, l: Layout, h: u64)
    requires Owned(v, sb, l) && h in l.indexes
    ensures forall i, j :: 0 <= i < j < |l.indexes[h]| ==> l.indexes[h][i].page != l.indexes[h][j].page
  {
    hide ChainHolds, LenOf, SlotsOf, NextOf;
    assert h in l.pages && NoRepeats(l.pages[h]);
    forall k | 0 <= k < |l.indexes[h]|
      ensures |l.pages[h]| == |l.indexes[h]| && l.indexes[h][k].page == l.pages[h][k]
    {
      IndexPageAt(v, sb, l, h, k);
    }
  }

  // ---- facts about index chains ------------------------------------------------------------

  lemma {:induction false} LinkedNext(v: View, head: u64, ps: seq<u64>, k: nat)
    requires Linked(v, head, ps) && k < |ps|
    ensures ps[k] != 0 && ps[k] in v && NextOf(v[ps[k]]) == if k + 1 < |ps| then ps[k + 1] else 0
    decreases |ps|
  {
    if k > 0 {
      LinkedNext(v, NextOf(v[head]), ps[1..], k - 1);
    }
  }

  lemma IndexStart(v: View, sb: Superblock, l: Layout, head: u64)
    requires Owned(v, sb, l) && head in l.indexes
    ensures head != 0 && l.indexes[head] != [] && l.indexes[head][0].page == head
  {
    assert ChainHolds(v, l, head);
  }

  lemma IndexNext(v: View, sb: Superblock, l: Layout, head: u64, k: nat)
    requires Owned(v, sb, l) && head in l.indexes && k < |l.indexes[head]|
    ensures var p := l.indexes[head][k].page;
      && p != 0 && p in v && DataPage(p, sb.totalPages) && LenOf(v[p]) <= IDX_CAP
      && l.indexes[head][k].slots == SlotsOf(v[p])
      && NextOf(v[p]) == if k + 1 < |l.indexes[head]| then l.indexes[head][k + 1].page else 0
  {
    hide NextOf, LenOf, SlotsOf;
    IndexPageAt(v, sb, l, head, k);
    assert ChainHolds(v, l, head);
    LinkedNext(v, head, l.pages[head], k);
  }

  lemma IndexNonZero(v: View, sb: Superblock, l: Layout, head: u64, k: nat)
    requires Owned(v, sb, l) && head in l.indexes
    ensures k < |l.indexes[head]| ==> l.indexes[head][k].page != 0
  {
    if k < |l.indexes[head]| {
      IndexNext(v, sb, l, head, k);
    }
  }

  /** The page in hand is not the last page of the index, which stays as it was. */
  lemma LastStays(v: View, sb: Superblock, l: Layout, head: u64, k: nat, np: u64)
    requires Owned(v, sb, l) && head in l.indexes && k < |l.indexes[head]|
    requires LOOSE in l.pages && np in l.pages[LOOSE]
    ensures l.indexes[head][k].page != np && np in v && l.indexes[head][k].page in v
    ensures DataPage(np, sb.totalPages) && DataPage(l.indexes[head][k].page, sb.totalPages)
  {
    hide LenOf, SlotsOf, NextOf, ChainHolds;
    IndexPageAt(v, sb, l, head, k);
    var i :| 0 <= i < |l.pages[LOOSE]| && l.pages[LOOSE][i] == np;
    LooseAt(v, sb, l, i);
  }

  /** The pages of an empty blob, read as an index. */
  lemma EmptyIndex(v: View, sb: Superblock, l: Layout, h: u64) returns (ix: seq<IndexPage>)
    requires Owned(v, sb, l) && h in l.blobs && l.blobs[h] == []
    ensures ix != [] && Entries(ix) == []
    ensures Owned(v, sb, l.(blobs := l.blobs - {h}, indexes := l.indexes[h := ix]))
  {
    hide Partition, Linked, NextOf, PayloadOf, SlotsOf;
    assert ChainHolds(v, l, h);
    EmptyLengths(v, l.pages[h]);
    ix := IndexOf(v, l.pages[h]);
    NoEntries(ix);
    PartitionIgnoresContents(sb, l, l.(blobs := l.blobs - {h}, indexes := l.indexes[h := ix]));
    RekindOthers(v, l, h, ix);
  }

  lemma RekindOthers(v: View, l: Layout, h: u64, ix: seq<IndexPage>)
    requires forall g :: g in l.blobs || g in l.indexes ==> ChainHolds(v, l, g)
    requires ChainHolds(v, l.(blobs := l.blobs - {h}, indexes := l.indexes[h := ix]), h)
    ensures var l' := l.(blobs := l.blobs - {h}, indexes := l.indexes[h := ix]);
      forall g :: g in l'.blobs || g in l'.indexes ==> ChainHolds(v, l', g)
  {
    hide Linked, BlobPages, BlobOf, IndexPages, IndexOf;
    var l' := l.(blobs := l.blobs - {h}, indexes := l.indexes[h := ix]);
    forall g | g in l'.blobs || g in l'.indexes
      ensures ChainHolds(v, l', g)
    {
      if g != h {
        SameChain(v, l, l', g);
      }
    }
  }

  lemma {:induction false} EmptyLengths(v: View, ps: seq<u64>)
    requires BlobPages(v, ps) && BlobOf(v, ps) == []
    ensures forall p :: p in ps ==> LenOf(v[p]) == 0
  {
    if ps != [] {
      assert BlobPages(v, ps[1..]);
      assert |PayloadOf(v[ps[0]])| == 0;
      EmptyLengths(v, ps[1..]);
    }
  }

  lemma {:induction false} NoEntries(ix: seq<IndexPage>)
    requires forall i :: 0 <= i < |ix| ==> ix[i].slots == []
    ensures Entries(ix) == []
  {
    if ix != [] {
      NoEntries(ix[1..]);
    }
  }

  ghost predicate LooseIn(l: Layout) {
    LOOSE in l.pages
  }

  lemma HasLoose(v: View, sb: Superblock, l: Layout)
    requires Owned(v, sb, l)
    ensures LooseIn(l) && FREE in l.pages
  {
  }

  lemma LooseAt(v: View, sb: Superblock, l: Layout, i: nat)
    requires Owned(v, sb, l) && i < |l.pages[LOOSE]|
    ensures var p := l.pages[LOOSE][i];
      && p in v && DataPage(p, sb.totalPages) && p in l.owner && l.owner[p] == LOOSE
      && forall j :: 0 <= j < |l.pages[LOOSE]| && j != i ==> l.pages[LOOSE][j] != p
  {
    assert l.owner[l.pages[LOOSE][i]] == LOOSE;
  }

  lemma NextPage(v: View, p: u64, rest: seq<u64>)
    requires Linked(v, p, rest) && p != 0
    ensures rest != [] && rest[0] == p && p in v && Linked(v, NextOf(v[p]), rest[1..])
  {
  }

  lemma PageInView(v: View, sb: Superblock, l: Layout, p: u64)
    requires Owned(v, sb, l) && p in v
    ensures FIRST_DATA_PAGE <= p < sb.totalPages
  {
  }

  lemma LinkedEnd(v: View, rest: seq<u64>)
    requires Linked(v, 0, rest)
    ensures rest == []
  {
  }

  lemma BlobEnd(v: View, rest: seq<u64>)
    requires rest == [] && BlobPages(v, rest)
    ensures BlobOf(v, rest) == []
  {
  }

  lemma BlobStep(v: View, rest: seq<u64>)
    requires rest != [] && BlobPages(v, rest)
    ensures rest[0] in v && LenOf(v[rest[0]]) <= CHAIN_CAP && BlobPages(v, rest[1..])
    ensures BlobOf(v, rest) == PayloadOf(v[rest[0]]) + BlobOf(v, rest[1..])
  {
    assert rest[0] in rest;
  }

  lemma AllocAllowed(v: View, sb: Superblock, l: Layout)
    requires Owned(v, sb, l)
    ensures (sb.freeHead != 0 ==> DataPage(sb.freeHead, sb.totalPages)) && FIRST_DATA_PAGE <= sb.hwm
    ensures forall h :: h in l.blobs || h in l.indexes ==> h in l.pages && h != LOOSE && h != FREE
    ensures sb.freeHead != 0 ==> sb.freeHead in v
    ensures LOOSE in l.pages
  {
    if sb.freeHead != 0 {
      FreeFront(v, sb, l);
    }
  }

  /** The laid-out pages in hand become a chain of their own. */
  lemma AdoptChain(v: View, sb: Superblock, l: Layout, bytes: seq<u8>)
    requires Owned(v, sb, l) && |l.pages[LOOSE]| == ChunkCount(bytes) &&
      Laid(v, bytes, l.pages[LOOSE], |l.pages[LOOSE]|)
    ensures var h := l.pages[LOOSE][0];
      && h !in l.blobs && h !in l.indexes && h != 0 && h != LOOSE
      && Owned(v, sb, Adopt(l, h).(blobs := l.blobs[h := bytes]))
  {
    hide Linked, BlobOf, Laid, ChunkImage;
    var ps := l.pages[LOOSE];
    LooseNonZero(v, sb, l);
    LaidHolds(v, bytes, ps, 0);
    assert ps[0..] == ps && bytes[0..] == bytes;
    AdoptBlob(v, sb, l, bytes);
  }

  lemma LooseNonZero(v: View, sb: Superblock, l: Layout)
    requires Owned(v, sb, l)
    ensures forall j :: 0 <= j < |l.pages[LOOSE]| ==> l.pages[LOOSE][j] != 0
  {
    forall j | 0 <= j < |l.pages[LOOSE]|
      ensures l.pages[LOOSE][j] != 0
    {
      LooseAt(v, sb, l, j);
    }
  }

  lemma ReleaseStart(v: View, sb: Superblock, l: Layout, head: u64)
    requires Owned(v, sb, l) && (head in l.blobs || head in l.indexes)
    ensures head in l.pages && head != 0
    ensures LOOSE in Release(l, head).pages && Release(l, head).pages[LOOSE] == l.pages[head]
  {
  }

  /** Freeing the first page in hand leaves the rest linked as they were. */
  lemma GiveRest(v: View, sb: Superblock, l: Layout, img: Page)
    requires Owned(v, sb, l) && l.pages[LOOSE] != []
    requires var p := l.pages[LOOSE][0]; p in v && Linked(v, NextOf(v[p]), l.pages[LOOSE][1..])
    ensures LOOSE in Give(l).pages && Give(l).pages[LOOSE] == l.pages[LOOSE][1..]
    ensures var p := l.pages[LOOSE][0]; Linked(v[p := img], NextOf(v[p]), l.pages[LOOSE][1..])
  {
    var p := l.pages[LOOSE][0];
    assert p !in l.pages[LOOSE][1..];
    LinkedFrame(v, v[p := img], NextOf(v[p]), l.pages[LOOSE][1..]);
  }
}
