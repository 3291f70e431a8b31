/** Pages over the device: the superblock, the free-list allocator and the one-transaction write buffer. */
module Pager {
  import opened Errors
  import opened Bytes
  import opened Block
  import opened JournalFormat
  import opened JournalProtocol
  import Journal

  const SB_MAGIC: u32 := 0x534c_4254
  const SB_VERSION: u32 := 1
  const CACHE_MAX := 8192

  datatype Superblock = Superblock(totalPages: u64, hwm: u64, freeHead: u64, catalogHead: u64, generation: u64)

  function ZeroPage(): Page {
    seq(4096, _ => 0)
  }

  function SbFields(sb: Superblock): (s: seq<u8>)
    ensures |s| == 40
  {
    ToLe(sb.totalPages, 8) + ToLe(sb.hwm, 8) + ToLe(sb.freeHead, 8) + ToLe(sb.catalogHead, 8) + ToLe(sb.generation, 8)
  }

  function SbHead(crc: u32): (s: seq<u8>)
    ensures |s| == 16
  {
    ToLe(SB_MAGIC, 4) + ToLe(SB_VERSION, 4) + ToLe(4096, 4) + ToLe(crc, 4)
  }

  function EncodeSb(sb: Superblock): Page {
    SbHead(Crc32(SbFields(sb))) + SbFields(sb) + seq(4040, _ => 0)
  }

  function DecodeSb(p: Page): (r: Result<Superblock>)
    ensures r.Failure? ==> r.error.Corrupt?
  {
    if GetU32(p, 0) != SB_MAGIC then Failure(Corrupt("not a TablesOS volume"))
    else if Crc32(p[16..56]) != GetU32(p, 12) then Failure(Corrupt("superblock checksum"))
    else Success(Superblock(GetU64(p, 16), GetU64(p, 24), GetU64(p, 32), GetU64(p, 40), GetU64(p, 48)))
  }

  lemma SbFieldsRoundTrip(sb: Superblock)
    ensures var f := SbFields(sb);
      && GetU64(f, 0) == sb.totalPages && GetU64(f, 8) == sb.hwm && GetU64(f, 16) == sb.freeHead
      && GetU64(f, 24) == sb.catalogHead && GetU64(f, 32) == sb.generation
  {
    var f := SbFields(sb);
    assert f[0..8] == ToLe(sb.totalPages, 8);
    assert f[8..16] == ToLe(sb.hwm, 8);
    assert f[16..24] == ToLe(sb.freeHead, 8);
    assert f[24..32] == ToLe(sb.catalogHead, 8);
    assert f[32..40] == ToLe(sb.generation, 8);
    GetAt64(f, 0, sb.totalPages);
    GetAt64(f, 8, sb.hwm);
    GetAt64(f, 16, sb.freeHead);
    GetAt64(f, 24, sb.catalogHead);
    GetAt64(f, 32, sb.generation);
  }

  lemma SbHeadRoundTrip(crc: u32)
    ensures GetU32(SbHead(crc), 0) == SB_MAGIC && GetU32(SbHead(crc), 12) == crc
  {
    var h := SbHead(crc);
    assert h[0..4] == ToLe(SB_MAGIC, 4);
    assert h[12..16] == ToLe(crc, 4);
    GetAt32(h, 0, SB_MAGIC);
    GetAt32(h, 12, crc);
  }

  /** A superblock reads back as it was written. */
  lemma SbRoundTrip(sb: Superblock)
    ensures DecodeSb(EncodeSb(sb)) == Success(sb)
  {
    var p, f, h := EncodeSb(sb), SbFields(sb), SbHead(Crc32(SbFields(sb)));
    SbFieldsRoundTrip(sb);
    SbHeadRoundTrip(Crc32(f));
    assert p[0..16] == h && p[16..56] == f;
    SliceOfSlice(p, 0, 16, 0, 4);
    SliceOfSlice(p, 0, 16, 12, 16);
    SliceOfSlice(p, 16, 56, 0, 8);
    SliceOfSlice(p, 16, 56, 8, 16);
    SliceOfSlice(p, 16, 56, 16, 24);
    SliceOfSlice(p, 16, 56, 24, 32);
    SliceOfSlice(p, 16, 56, 32, 40);
  }

  /** A page is taken for a superblock exactly when it bears the magic number, the fields and their checksum. */
  lemma SbAccepts(p: Page, sb: Superblock)
    ensures DecodeSb(p) == Success(sb) <==>
      p[0..4] == ToLe(SB_MAGIC, 4) && p[16..56] == SbFields(sb) && p[12..16] == ToLe(Crc32(SbFields(sb)), 4)
  {
    FieldIs32(p, 0, SB_MAGIC);
    FieldIs32(p, 12, Crc32(p[16..56]));
    FieldIs64(p, 16, sb.totalPages);
    FieldIs64(p, 24, sb.hwm);
    FieldIs64(p, 32, sb.freeHead);
    FieldIs64(p, 40, sb.catalogHead);
    FieldIs64(p, 48, sb.generation);
    FiveFields(p, sb);
  }

  lemma FiveFields(p: Page, sb: Superblock)
    ensures p[16..56] == SbFields(sb) <==>
      && p[16..24] == ToLe(sb.totalPages, 8) && p[24..32] == ToLe(sb.hwm, 8) && p[32..40] == ToLe(sb.freeHead, 8)
      && p[40..48] == ToLe(sb.catalogHead, 8) && p[48..56] == ToLe(sb.generation, 8)
  {
    var f, g := p[16..56], SbFields(sb);
    assert f == p[16..24] + p[24..32] + p[32..40] + p[40..48] + p[48..56];
    assert f[0..8] == p[16..24] && f[8..16] == p[24..32] && f[16..24] == p[32..40] && f[24..32] == p[40..48]
      && f[32..40] == p[48..56];
    assert g[0..8] == ToLe(sb.totalPages, 8) && g[8..16] == ToLe(sb.hwm, 8) && g[16..24] == ToLe(sb.freeHead, 8)
      && g[24..32] == ToLe(sb.catalogHead, 8) && g[32..40] == ToLe(sb.generation, 8);
  }

  /** What a freed page holds: the rest of the free list. */
  function FreeImage(next: u64): Page {
    PutU64(ZeroPage(), 0, next)
  }

  // ---- what a medium shows ------------------------------------------------------

  /** The contents of every data page. */
  type View = map<u64, Page>

  predicate DataPage(p: nat, total: nat) {
    FIRST_DATA_PAGE <= p < total
  }

  ghost function DiskView(d: Disk, total: u64): (v: View)
    requires total * 8 <= |d|
    ensures forall p: u64 :: p in v <==> DataPage(p, total)
  {
    map p: u64 | DataPage(p, total) :: DiskPage(d, p)
  }

  /** The home pages of `d` are a volume with this superblock and these data pages. */
  ghost predicate Shows(d: Disk, sb: Superblock, view: View) {
    IsVolume(d, sb) && view == DiskView(d, sb.totalPages)
  }

  ghost predicate IsVolume(d: Disk, sb: Superblock) {
    FIRST_DATA_PAGE + 1 < sb.totalPages && sb.totalPages * 8 <= |d| && DecodeSb(DiskPage(d, 0)) == Success(sb)
  }

  lemma SameHomePage(a: Disk, b: Disk, p: nat)
    requires SameHome(a, b) && HomePage(p, |a|)
    ensures DiskPage(a, p) == DiskPage(b, p)
  {
  }

  /** Media with the same home pages show the same volume. */
  lemma SameHomeShows(a: Disk, b: Disk, sb: Superblock, view: View)
    requires SameHome(a, b) && Shows(b, sb, view)
    ensures Shows(a, sb, view)
  {
    SameHomePage(a, b, 0);
    forall p: u64 | DataPage(p, sb.totalPages)
      ensures DiskPage(a, p) == DiskPage(b, p)
    {
      SameHomePage(a, b, p);
    }
    assert DiskView(a, sb.totalPages) == DiskView(b, sb.totalPages);
  }

  /** A medium that recovers to one of two whole volumes. */
  ghost predicate RecoversToEither(d: Disk, sb0: Superblock, view0: View, sb1: Superblock, view1: View) {
    Sound(d) && (Shows(Logical(d), sb0, view0) || Shows(Logical(d), sb1, view1))
  }

  /** So does every medium a power cut at this moment can leave. */
  ghost predicate CutsRecoverToEither(dev: BlockDevice, sb0: Superblock, view0: View, sb1: Superblock, view1: View)
    reads dev
  {
    dev.Valid() && forall image :: dev.MayLeave(image) ==> RecoversToEither(image, sb0, view0, sb1, view1)
  }

  // ---- a write-set on the medium -----------------------------------------------------

  predicate DistinctPages(ps: seq<PageWrite>) {
    forall i, j :: 0 <= i < j < |ps| ==> ps[i].page != ps[j].page
  }

  lemma InstallCarries(ps: seq<PageWrite>, i: nat, k: nat)
    requires DistinctPages(ps) && i < |ps| && k < 8
    ensures Carries(PageSectors(ps), ps[i].page * 8 + k, PageSector(ps[i].image, k))
  {
    var ws, s := PageSectors(ps), ps[i].page * 8 + k;
    assert (8 * i + k) / 8 == i && (8 * i + k) % 8 == k;
    assert ws[8 * i + k].lba == s;
    forall j | 0 <= j < |ws| && ws[j].lba == s
      ensures ws[j].sector == PageSector(ps[i].image, k)
    {
      assert ws[j].lba == ps[j / 8].page * 8 + j % 8;
      assert ps[j / 8].page == ps[i].page && j % 8 == k;
      assert j / 8 == i;
    }
  }

  /** An installed page holds its image. */
  lemma InstalledPage(d: Disk, ps: seq<PageWrite>, i: nat)
    requires HomeWrites(ps, |d|) && DistinctPages(ps) && i < |ps|
    ensures DiskPage(Install(d, ps), ps[i].page) == ps[i].image
  {
    var r := Install(d, ps);
    PageSectorsInRange(ps, |d|);
    assert HomePage(ps[i].page, |d|);
    forall k | 0 <= k < 8
      ensures r[ps[i].page * 8 + k] == PageSector(ps[i].image, k)
    {
      InstallCarries(ps, i, k);
      ApplyHit(d, PageSectors(ps), ps[i].page * 8 + k, PageSector(ps[i].image, k));
    }
    DiskPageFrom(r, ps[i].page, ps[i].image);
  }

  lemma InstallMisses(ps: seq<PageWrite>, p: nat, k: nat)
    requires forall i :: 0 <= i < |ps| ==> ps[i].page != p
    requires k < 8
    ensures !Hits(PageSectors(ps), p * 8 + k)
  {
    forall j | 0 <= j < 8 * |ps|
      ensures PageSectors(ps)[j].lba != p * 8 + k
    {
      assert ps[j / 8].page != p;
    }
  }

  /** A page outside the write-set keeps its content. */
  lemma UninstalledPage(d: Disk, ps: seq<PageWrite>, p: nat)
    requires HomeWrites(ps, |d|) && p * 8 + 8 <= |d|
    requires forall i :: 0 <= i < |ps| ==> ps[i].page != p
    ensures DiskPage(Install(d, ps), p) == DiskPage(d, p)
  {
    var r := Install(d, ps);
    PageSectorsInRange(ps, |d|);
    forall k | 0 <= k < 8
      ensures r[p * 8 + k] == PageSector(DiskPage(d, p), k)
    {
      InstallMisses(ps, p, k);
      ApplyMiss(d, PageSectors(ps), p * 8 + k);
      DiskPageSector(d, p, k);
    }
    DiskPageFrom(r, p, DiskPage(d, p));
  }

  ghost predicate Ascending(ks: seq<u64>) {
    forall i, j :: 0 <= i < j < |ks| ==> ks[i] < ks[j]
  }

  /** `ks` lists the staged pages in ascending order. */
  ghost predicate StagedKeys(dirty: View, ks: seq<u64>) {
    Ascending(ks) && |ks| == |dirty| && forall p :: p in ks <==> p in dirty
  }

  /** The write-set: the superblock, then the staged pages. */
  function BatchOf(sb: Superblock, dirty: View, ks: seq<u64>): (batch: seq<PageWrite>)
    requires forall i :: 0 <= i < |ks| ==> ks[i] in dirty
    ensures |batch| == 1 + |ks|
  {
    [PageWrite(0, EncodeSb(sb))] + seq(|ks|, i requires 0 <= i < |ks| => PageWrite(ks[i], dirty[ks[i]]))
  }

  ghost predicate StagedIn(dirty: View, total: u64) {
    forall p :: p in dirty ==> DataPage(p, total)
  }

  lemma BatchPages(sb: Superblock, dirty: View, ks: seq<u64>, sectors: nat)
    requires StagedKeys(dirty, ks) && StagedIn(dirty, sb.totalPages)
    requires 8 <= sectors && sb.totalPages * 8 <= sectors
    ensures HomeWrites(BatchOf(sb, dirty, ks), sectors) && DistinctPages(BatchOf(sb, dirty, ks))
  {
    hide EncodeSb;
    var batch := BatchOf(sb, dirty, ks);
    forall i, j | 0 <= i < j < |batch|
      ensures batch[i].page != batch[j].page
    {
      assert i > 0 ==> batch[i].page == ks[i - 1];
      assert batch[j].page == ks[j - 1] && ks[j - 1] in ks;
    }
    forall i | 0 <= i < |batch|
      ensures HomePage(batch[i].page, sectors)
    {
      if i > 0 {
        assert batch[i].page == ks[i - 1];
      }
    }
  }

  lemma BatchPage(d: Disk, sb: Superblock, dirty: View, ks: seq<u64>, p: u64)
    requires StagedKeys(dirty, ks) && HomeWrites(BatchOf(sb, dirty, ks), |d|) && DistinctPages(BatchOf(sb, dirty, ks))
    requires p * 8 + 8 <= |d| && p != 0
    ensures DiskPage(Install(d, BatchOf(sb, dirty, ks)), p) == if p in dirty then dirty[p] else DiskPage(d, p)
  {
    var batch := BatchOf(sb, dirty, ks);
    if p in dirty {
      var i :| 0 <= i < |ks| && ks[i] == p;
      assert batch[i + 1] == PageWrite(p, dirty[p]);
      InstalledPage(d, batch, i + 1);
    } else {
      forall i | 0 <= i < |batch|
        ensures batch[i].page != p
      {
        if i > 0 {
          assert batch[i].page == ks[i - 1] && ks[i - 1] in ks;
        }
      }
      UninstalledPage(d, batch, p);
    }
  }

  lemma BatchSuperblock(d: Disk, sb: Superblock, dirty: View, ks: seq<u64>)
    requires FIRST_DATA_PAGE + 1 < sb.totalPages && sb.totalPages * 8 <= |d|
    requires StagedKeys(dirty, ks) && StagedIn(dirty, sb.totalPages)
    ensures HomeWrites(BatchOf(sb, dirty, ks), |d|)
    ensures IsVolume(Install(d, BatchOf(sb, dirty, ks)), sb)
  {
    BatchPages(sb, dirty, ks, |d|);
    InstalledPage(d, BatchOf(sb, dirty, ks), 0);
    SbRoundTrip(sb);
  }

  /** Installing the write-set shows its superblock and the staged pages over the old ones. */
  lemma BatchShows(d: Disk, sb: Superblock, dirty: View, ks: seq<u64>)
    requires FIRST_DATA_PAGE + 1 < sb.totalPages && sb.totalPages * 8 <= |d|
    requires StagedKeys(dirty, ks) && StagedIn(dirty, sb.totalPages)
    ensures HomeWrites(BatchOf(sb, dirty, ks), |d|)
    ensures Shows(Install(d, BatchOf(sb, dirty, ks)), sb, DiskView(d, sb.totalPages) + dirty)
  {
    hide IsVolume, DistinctPages, EncodeSb;
    BatchSuperblock(d, sb, dirty, ks);
    BatchPages(sb, dirty, ks, |d|);
    var r, view := Install(d, BatchOf(sb, dirty, ks)), DiskView(d, sb.totalPages) + dirty;
    forall p: u64 | DataPage(p, sb.totalPages)
      ensures DiskPage(r, p) == view[p]
    {
      BatchPage(d, sb, dirty, ks, p);
    }
    assert view == DiskView(r, sb.totalPages);
  }

  lemma LeastExists(s: set<u64>) returns (m: u64)
    requires s != {}
    ensures m in s && forall x :: x in s ==> m <= x
  {
    var first :| first in s;
    var rest := s - {first};
    m := first;
    if rest != {} {
      var n := LeastExists(rest);
      m := if n < first then n else first;
    }
    forall x | x in s
      ensures m <= x
    {
      assert x == first || x in rest;
    }
  }

  // ---- the pager ------------------------------------------------------------------------

  class Pager {
    const dev: BlockDevice
    var sb: Superblock
    var dirty: View
    var cache: View

    /** The superblock and pages on the medium, under the staged ones and the cached ones. */
    ghost predicate Valid()
      reads this, dev
    {
      && Journal.Settled(dev) && Quiet(dev.data)
      && sb.totalPages * 8 <= |dev.data|
      && Shows(dev.data, Committed(), DiskView(dev.data, sb.totalPages))
      && Committed().totalPages == sb.totalPages && Committed().generation == sb.generation
      && StagedIn(dirty, sb.totalPages)
      && Mirrors(DiskView(dev.data, sb.totalPages))
    }

    /** The superblock of the last commit. */
    ghost function Committed(): Superblock
      reads dev`data
    {
      if |dev.data| >= 8 && DecodeSb(DiskPage(dev.data, 0)).Success? then DecodeSb(DiskPage(dev.data, 0)).value
      else Superblock(0, 0, 0, 0, 0)
    }

    /** What a pager without a cache would read: the staged image, else the medium. */
    ghost function Contents(): View
      reads this`sb, this`dirty, dev`data
    {
      (if sb.totalPages * 8 <= |dev.data| then DiskView(dev.data, sb.totalPages) else map[]) + dirty
    }

    constructor (dev: BlockDevice, sb: Superblock)
      ensures this.dev == dev && this.sb == sb && dirty == map[] && cache == map[]
    {
      this.dev, this.sb, dirty, cache := dev, sb, map[], map[];
    }

    /** Lay down a fresh, empty volume. */
    static method Format(dev: BlockDevice) returns (r: Result<Pager>)
      requires Journal.Settled(dev) && |dev.data| < 0x1_0000_0000_0000_0000
      modifies dev
      ensures |old(dev.data)| / 8 <= FIRST_DATA_PAGE + 1 ==> r == Failure(OutOfSpace) && dev.data == old(dev.data)
      ensures r.Success? ==>
        && fresh(r.value) && r.value.dev == dev && r.value.Valid() && r.value.dirty == map[]
        && r.value.sb == Superblock(|old(dev.data)| / 8, FIRST_DATA_PAGE, 0, 0, 1) && r.value.Committed() == r.value.sb
      ensures r.Failure? ==> r.error == OutOfSpace || r.error == Io
    {
      var totalPages := |dev.data| / 8;
      if totalPages <= FIRST_DATA_PAGE + 1 {
        return Failure(OutOfSpace);
      }
      var done := Journal.Init(dev);
      if done.Failure? { return Failure(Io); }
      var sb := Superblock(totalPages, FIRST_DATA_PAGE, 0, 0, 1);
      ghost var before := dev.data;
      Journal.WritePage(dev, 0, EncodeSb(sb));
      ghost var batch := [PageWrite(0, EncodeSb(sb))];
      assert [] + PageSectors(batch) == PageSectors(batch);
      done := dev.Flush();
      if done.Failure? { return Failure(Io); }
      assert dev.data == Install(before, batch);
      InstalledPage(before, batch, 0);
      SbRoundTrip(sb);
      ApplyBetween(before, PageSectors(batch));
      JournalFrame(before, batch, dev.data);
      assert CtrlOf(dev.data) == CtrlOf(before);
      var p := new Pager(dev, sb);
      p.Clean(DiskView(dev.data, totalPages));
      return Success(p);
    }

    /** The cached pages are those of `view`. */
    ghost predicate Mirrors(view: View)
      reads this`cache
    {
      forall p :: p in cache ==> p in view && cache[p] == view[p]
    }

    /** No transaction in progress. */
    lemma Clean(view: View)
      requires Journal.Settled(dev) && Quiet(dev.data) && Shows(dev.data, sb, view)
      requires dirty == map[] && Mirrors(view)
      ensures Valid() && Contents() == view && Committed() == sb
    {
      assert Contents() == DiskView(dev.data, sb.totalPages);
    }

    /** Open a volume, replaying a committed transaction that was not installed. Any medium recovery can
        deal with is accepted; only a genuine superblock opens. */
    static method Mount(dev: BlockDevice) returns (r: Result<Pager>)
      requires Journal.Settled(dev) && Sound(dev.data)
      modifies dev
      ensures r.Success? ==>
        && fresh(r.value) && r.value.dev == dev && r.value.dirty == map[] && r.value.cache == map[]
        && DecodeSb(DiskPage(Logical(old(dev.data)), 0)) == Success(r.value.sb)
      ensures r.Success? && IsVolume(Logical(old(dev.data)), r.value.sb) ==>
        && r.value.Valid() && r.value.Committed() == r.value.sb
        && Shows(Logical(old(dev.data)), r.value.sb, r.value.Contents())
      ensures r.Failure? ==>
        (r.error == Io && !dev.powered) || DecodeSb(DiskPage(Logical(old(dev.data)), 0)) == Failure(r.error)
      ensures dev.Valid() && forall image :: dev.MayLeave(image) ==>
        Sound(image) && SameHome(Logical(image), Logical(old(dev.data)))
      ensures Sound(dev.data) && SameHome(Logical(dev.data), Logical(old(dev.data)))
      ensures dev.powered ==> old(dev.powered)
    {
      var redone := Journal.Recover(dev);
      dev.LeavesData();
      forall image | dev.MayLeave(image)
        ensures Sound(image) && SameHome(Logical(image), Logical(old(dev.data)))
      {
        CutRecover(old(dev.data), image);
      }
      if redone.Failure? { return Failure(Io); }
      SameHomePage(dev.data, Logical(old(dev.data)), 0);
      var page := Journal.ReadPage(dev, 0);
      if page.Failure? { return Failure(Io); }
      var decoded := DecodeSb(page.value);
      if decoded.Failure? { return Failure(decoded.error); }
      var p := new Pager(dev, decoded.value);
      ghost var home := Logical(old(dev.data));
      if IsVolume(home, p.sb) {
        SameHomeShows(dev.data, home, p.sb, DiskView(home, p.sb.totalPages));
        p.Clean(DiskView(home, p.sb.totalPages));
      }
      return Success(p);
    }

    /** The staged image, else the cached one, else the device. */
    method ReadPage(page: u64) returns (r: Result<Page>)
      requires Valid() && FIRST_DATA_PAGE <= page
      modifies this`cache
      ensures Valid()
      ensures r == if page < sb.totalPages then Success(Contents()[page]) else Failure(Corrupt("page out of range"))
    {
      if page in dirty {
        return Success(dirty[page]);
      }
      if page in cache {
        return Success(cache[page]);
      }
      if page >= sb.totalPages {
        return Failure(Corrupt("page out of range"));
      }
      var image := Journal.ReadPage(dev, page);
      if |cache| >= CACHE_MAX {
        cache := map[];
      }
      cache := cache[page := image.value];
      return image;
    }

    method WritePage(page: u64, image: Page)
      requires Valid() && DataPage(page, sb.totalPages)
      modifies this`dirty
      ensures Valid() && Contents() == old(Contents())[page := image]
      ensures dirty == old(dirty)[page := image]
    {
      dirty := dirty[page := image];
    }

    /** Reuse the head of the free list, else take a never-used page; staged as zeros. */
    method AllocPage() returns (r: Result<u64>)
      requires Valid() && (sb.freeHead != 0 ==> DataPage(sb.freeHead, sb.totalPages)) && FIRST_DATA_PAGE <= sb.hwm
      modifies this`sb, this`dirty, this`cache
      ensures Valid()
      ensures old(sb).freeHead != 0 ==>
        && r == Success(old(sb).freeHead)
        && sb == old(sb).(freeHead := GetU64(old(Contents())[old(sb).freeHead], 0))
      ensures old(sb).freeHead == 0 && old(sb).hwm < sb.totalPages ==>
        r == Success(old(sb).hwm) && sb == old(sb).(hwm := old(sb).hwm + 1)
      ensures r.Success? ==>
        && DataPage(r.value, sb.totalPages) && Contents() == old(Contents())[r.value := ZeroPage()]
        && dirty == old(dirty)[r.value := ZeroPage()]
      ensures old(sb).freeHead == 0 && old(sb).hwm >= sb.totalPages ==>
        r == Failure(OutOfSpace) && sb == old(sb) && dirty == old(dirty)
    {
      var page: u64;
      if sb.freeHead != 0 {
        page := sb.freeHead;
        var image := ReadPage(page);
        if image.Failure? { return Failure(image.error); }
        sb := sb.(freeHead := GetU64(image.value, 0));
      } else if sb.hwm < sb.totalPages {
        page := sb.hwm;
        sb := sb.(hwm := sb.hwm + 1);
      } else {
        return Failure(OutOfSpace);
      }
      WritePage(page, ZeroPage());
      return Success(page);
    }

    method FreePage(page: u64)
      requires Valid() && DataPage(page, sb.totalPages)
      modifies this`sb, this`dirty
      ensures Valid() && Contents() == old(Contents())[page := FreeImage(old(sb).freeHead)]
      ensures sb == old(sb).(freeHead := page)
      ensures dirty == old(dirty)[page := FreeImage(old(sb).freeHead)]
    {
      var image := PutU64(ZeroPage(), 0, sb.freeHead);
      WritePage(page, image);
      sb := sb.(freeHead := page);
    }

    /** The staged page numbers in ascending order. */
    method SortedKeys() returns (ks: seq<u64>)
      ensures StagedKeys(dirty, ks)
    {
      ks := [];
      var rest := dirty.Keys;
      while rest != {}
        invariant rest <= dirty.Keys && |ks| + |rest| == |dirty|
        invariant Ascending(ks)
        invariant forall p :: p in ks <==> p in dirty && p !in rest
        invariant forall p, q :: p in ks && q in rest ==> p < q
        decreases |rest|
      {
        ghost var least := LeastExists(rest);
        var p :| p in rest && forall q :: q in rest ==> p <= q;
        assert forall i :: 0 <= i < |ks| ==> ks[i] in ks;
        ks := ks + [p];
        rest := rest - {p};
      }
    }

    /** Commit the active transaction. Either it all lands, or nothing has changed, or power is gone and the
        medium, whichever unflushed writes it kept, will recover to one of the two. */
    method Commit() returns (r: Result<Unit>)
      requires Valid() && sb.generation + 1 < 0x1_0000_0000_0000_0000
      modifies this, dev
      ensures r.Success? ==>
        && Valid() && Contents() == old(Contents()) && dirty == map[]
        && sb == (if old(dirty) == map[] then old(sb) else old(sb).(generation := old(sb).generation + 1))
        && (if old(dirty) == map[] then dev.data == old(dev.data) else Committed() == sb)
      ensures r == Failure(OutOfSpace) <==> old(dirty) != map[] && |old(dirty)| + 1 > JCAP
      ensures r == Failure(OutOfSpace) ==>
        Valid() && sb == old(sb) && dirty == old(dirty) && dev.data == old(dev.data)
      ensures r.Failure? && r.error != OutOfSpace ==>
        && r.error == Io && !dev.powered
        && CutsRecoverToEither(dev, old(Committed()), old(DiskView(dev.data, sb.totalPages)),
                        old(sb).(generation := old(sb).generation + 1), old(Contents()))
    {
      if dirty == map[] {
        return Success(Unit);
      }
      r := CommitStaged();
    }

    method CommitStaged() returns (r: Result<Unit>)
      requires Valid() && sb.generation + 1 < 0x1_0000_0000_0000_0000 && dirty != map[]
      modifies this, dev
      ensures r.Success? ==>
        && Valid() && Contents() == old(Contents()) && dirty == map[]
        && sb == old(sb).(generation := old(sb).generation + 1) && Committed() == sb
      ensures r == Failure(OutOfSpace) <==> |old(dirty)| + 1 > JCAP
      ensures r == Failure(OutOfSpace) ==>
        Valid() && sb == old(sb) && dirty == old(dirty) && dev.data == old(dev.data)
      ensures r.Failure? && r.error != OutOfSpace ==>
        && r.error == Io && !dev.powered
        && CutsRecoverToEither(dev, old(Committed()), old(DiskView(dev.data, sb.totalPages)),
                        old(sb).(generation := old(sb).generation + 1), old(Contents()))
    {
      hide EncodeSb, DecodeSb, StagedKeys;
      var next := sb.(generation := sb.generation + 1);
      var ks := SortedKeys();
      var batch := BatchOf(next, dirty, ks);
      ghost var view := Contents();
      BatchShows(dev.data, next, dirty, ks);
      r := CommitBatch(next, batch, DiskView(dev.data, sb.totalPages), view);
      if r.Failure? {
        return;
      }
      FoldIntoCache(ks, view);
      sb := next;
      dirty := map[];
      Clean(view);
    }

    /** Hand the write-set to the journal. */
    method CommitBatch(next: Superblock, batch: seq<PageWrite>, ghost was: View, ghost will: View)
      returns (r: Result<Unit>)
      requires Journal.Settled(dev) && Quiet(dev.data) && HomeWrites(batch, |dev.data|)
      requires Shows(dev.data, Committed(), was) && Shows(Install(dev.data, batch), next, will)
      modifies dev
      ensures r.Success? ==>
        Journal.Settled(dev) && Quiet(dev.data) && |dev.data| == |old(dev.data)| && Shows(dev.data, next, will)
      ensures r == Failure(OutOfSpace) <==> |batch| > JCAP
      ensures r == Failure(OutOfSpace) ==> Journal.Settled(dev) && dev.data == old(dev.data)
      ensures r.Failure? && r.error != OutOfSpace ==>
        r.error == Io && !dev.powered && CutsRecoverToEither(dev, old(Committed()), was, next, will)
    {
      ghost var start, sb0 := dev.data, Committed();
      r := Journal.Commit(dev, next.generation, batch);
      if r.Success? {
        SameHomeShows(dev.data, Install(start, batch), next, will);
      } else if |batch| <= JCAP {
        forall image | dev.MayLeave(image)
          ensures RecoversToEither(image, sb0, was, next, will)
        {
          CutShows(start, next.generation, batch, image, sb0, was, next, will);
        }
      }
    }

    /** The committed images become the clean content the cache mirrors. */
    method FoldIntoCache(ks: seq<u64>, ghost view: View)
      requires StagedKeys(dirty, ks)
      requires forall p :: p in dirty ==> p in view && dirty[p] == view[p]
      requires forall p :: p in cache ==> p in view && (p in dirty || cache[p] == view[p])
      modifies this`cache
      ensures Mirrors(view)
    {
      for i := 0 to |ks|
        invariant forall p :: p in cache ==> p in view && (cache[p] == view[p] || (p in dirty && p !in ks[..i]))
      {
        if |cache| >= CACHE_MAX {
          cache := map[];
        }
        cache := cache[ks[i] := dirty[ks[i]]];
      }
      assert ks[..|ks|] == ks;
    }

    /** Discard the active transaction. */
    method Rollback() returns (r: Result<Unit>)
      requires Valid()
      modifies this`sb, this`dirty
      ensures r.Success? && Valid()
      ensures sb == old(Committed()) && dirty == map[] && Contents() == DiskView(dev.data, sb.totalPages)
    {
      dirty := map[];
      var page := Journal.ReadPage(dev, 0);
      if page.Failure? { return Failure(Io); }
      var decoded := DecodeSb(page.value);
      if decoded.Failure? { return Failure(Corrupt("superblock")); }
      sb := decoded.value;
      return Success(Unit);
    }
  }

  /** An interrupted commit recovers to the old volume or the new one. */
  lemma CutShows(start: Disk, txid: u64, batch: seq<PageWrite>, image: Disk,
                 was: Superblock, wasView: View, next: Superblock, nextView: View)
    requires Quiet(start) && ValidBatch(batch, |start|) && CrashImage(start, CommitPhases(txid, batch), image)
    requires Shows(start, was, wasView) && Shows(Install(start, batch), next, nextView)
    ensures RecoversToEither(image, was, wasView, next, nextView)
  {
    var flushed, durable, pending := CrashPoint(start, CommitPhases(txid, batch), image);
    CommitAtomic(start, txid, batch, flushed, durable, pending, image);
    if SameHome(Logical(image), start) {
      SameHomeShows(Logical(image), start, was, wasView);
    } else {
      SameHomeShows(Logical(image), Install(start, batch), next, nextView);
    }
  }
}
