/** The journal's operations on a device. */
module Journal {
  import opened Errors
  import opened Bytes
  import opened Block
  import opened JournalFormat
  import opened JournalProtocol

  /** Nothing in flight on the device: a barrier has just completed. */
  ghost predicate Settled(dev: BlockDevice)
    reads dev
  {
    dev.Valid() && dev.pending == [] && dev.durable == dev.data
  }

  /** Whatever a power cut leaves at this moment, the protocol allows for. */
  ghost predicate CutsWithin(dev: BlockDevice, start: Disk, ps: Phases)
    reads dev
  {
    forall image :: dev.MayLeave(image) ==> CrashImage(start, ps, image)
  }

  method ReadPage(dev: BlockDevice, page: u64) returns (r: Result<Page>)
    ensures r == if page * 8 + 8 <= |dev.data| then Success(DiskPage(dev.data, page)) else Failure(Io)
  {
    var out: seq<u8> := [];
    for i := 0 to PAGE_SECTORS
      invariant |out| == i * 512
      invariant i > 0 ==> page * 8 + i <= |dev.data|
      invariant forall k :: 0 <= k < |out| ==>
        page * 8 + k / 512 < |dev.data| && out[k] == dev.data[page * 8 + k / 512][k % 512]
    {
      var sector := dev.ReadSector(page * 8 + i);
      if sector.Failure? {
        return Failure(Io);
      }
      out := out + sector.value;
    }
    assert out == DiskPage(dev.data, page);
    return Success(out);
  }

  /** Sectors go out in order; the device only ever fails at a barrier. */
  method WritePage(dev: BlockDevice, page: u64, image: Page)
    requires dev.Valid() && page * 8 + 8 <= |dev.data|
    modifies dev
    ensures dev.Valid() && dev.durable == old(dev.durable) && dev.cutAfter == old(dev.cutAfter)
    ensures dev.pending == old(dev.pending) + PageSectors([PageWrite(page, image)])
    ensures dev.powered ==> old(dev.powered)
  {
    var ws := PageSectors([PageWrite(page, image)]);
    for i := 0 to PAGE_SECTORS
      invariant dev.Valid() && dev.durable == old(dev.durable) && dev.cutAfter == old(dev.cutAfter)
      invariant dev.pending == old(dev.pending) + ws[..i]
      invariant dev.powered ==> old(dev.powered)
    {
      assert ws[i] == Write(page * 8 + i, PageSector(image, i));
      var r := dev.WriteSector(page * 8 + i, PageSector(image, i));
    }
    assert ws[..PAGE_SECTORS] == ws;
  }

  predicate OnDevice(ps: seq<PageWrite>, sectors: nat) {
    forall i :: 0 <= i < |ps| ==> ps[i].page * 8 + 8 <= sectors
  }

  method WritePages(dev: BlockDevice, ps: seq<PageWrite>)
    requires dev.Valid() && OnDevice(ps, |dev.data|)
    modifies dev
    ensures dev.Valid() && dev.durable == old(dev.durable) && dev.cutAfter == old(dev.cutAfter)
    ensures dev.pending == old(dev.pending) + PageSectors(ps)
    ensures dev.powered ==> old(dev.powered)
  {
    for i := 0 to |ps|
      invariant dev.Valid() && dev.durable == old(dev.durable) && dev.cutAfter == old(dev.cutAfter)
      invariant dev.pending == old(dev.pending) + PageSectors(ps[..i])
      invariant dev.powered ==> old(dev.powered)
    {
      WritePage(dev, ps[i].page, ps[i].image);
      PageSectorsConcat(ps[..i], [ps[i]]);
      assert ps[..i] + [ps[i]] == ps[..i + 1];
    }
    assert ps[..|ps|] == ps;
  }

  method WriteCtrl(dev: BlockDevice, buf: CtrlBuf)
    requires dev.Valid() && Fits(dev.data)
    modifies dev
    ensures dev.Valid() && dev.durable == old(dev.durable) && dev.cutAfter == old(dev.cutAfter)
    ensures dev.pending == old(dev.pending) + CtrlWrites(buf)
    ensures dev.powered ==> old(dev.powered)
  {
    WritePages(dev, CtrlPages(buf));
    CtrlPagesSectors(buf);
  }

  method ReadCtrl(dev: BlockDevice) returns (r: Option<Ctrl>)
    requires Fits(dev.data)
    ensures r == ParseCtrl(CtrlOf(dev.data))
  {
    var buf: seq<u8> := [];
    for p := 0 to JCTRL_PAGES
      invariant |buf| == 4096 * p
      invariant forall k :: 0 <= k < |buf| ==> buf[k] == CtrlOf(dev.data)[k]
    {
      var page := ReadPage(dev, 1 + p);
      buf := buf + page.value;
    }
    assert buf == CtrlOf(dev.data);
    if GetU32(buf, 0) != MAGIC {
      return None;
    }
    var count := GetU64(buf, 24);
    if count > JCAP {
      return None;
    }
    var entries: seq<u64> := [];
    for i := 0 to count
      invariant entries == EntriesIn(buf, count)[..i]
    {
      entries := entries + [GetU64(buf, HEADER_LEN + i * 8)];
    }
    assert entries == EntriesIn(buf, count);
    if Crc32(CrcInput(entries, GetU64(buf, 16))) != GetU32(buf, 12) {
      return None;
    }
    return Some(Ctrl(GetU32(buf, 8), entries));
  }

  /** Lay down an empty journal over whatever was there. */
  method Init(dev: BlockDevice) returns (r: Result<Unit>)
    requires Settled(dev) && Fits(dev.data)
    modifies dev
    ensures dev.Valid() && dev.cutAfter == old(dev.cutAfter)
    ensures r.Success? ==> Settled(dev) && Quiet(dev.data) && SameHome(dev.data, old(dev.data))
    ensures r.Failure? ==> r.error == Io
    ensures dev.powered ==> old(dev.powered)
  {
    var buf := RenderCtrl([], 0, STATE_EMPTY);
    WriteCtrl(dev, buf);
    WriteControls(old(dev.data), buf);
    r := dev.Flush();
    if r.Success? {
      assert [] + CtrlWrites(buf) == CtrlWrites(buf);
      assert dev.data == ApplyAll(old(dev.data), CtrlWrites(buf));
      assert dev.data[8 + 0] == CtrlSector(buf, 0);
      EmptyControlsQuiet(dev.data, [], 0);
    }
  }

  /** The barrier after a whole batch: it advances the protocol, or power is gone, and
      any of the batch may be on the medium. */
  method Barrier(dev: BlockDevice, ghost start: Disk, ghost ps: Phases, ghost flushed: nat) returns (r: Result<Unit>)
    requires dev.Valid() && Reached(start, ps, flushed, dev.durable, dev.pending)
    requires flushed < |ps| && dev.pending == ps[flushed]
    modifies dev
    ensures dev.Valid() && |dev.data| == |old(dev.data)|
    ensures dev.cutAfter == old(dev.cutAfter) && dev.powered == old(dev.powered)
    ensures r.Success? <==> dev.powered
    ensures r.Success? ==> Settled(dev) && Reached(start, ps, flushed + 1, dev.durable, dev.pending)
    ensures r.Failure? ==> r.error == Io && CutsWithin(dev, start, ps)
  {
    r := dev.Flush();
    if r.Success? {
      assert ps[..flushed + 1][..flushed] == ps[..flushed];
    }
  }

  /** A batch of page writes and its barrier. */
  method PagesPhase(dev: BlockDevice, batch: seq<PageWrite>, ghost start: Disk, ghost ps: Phases, ghost flushed: nat)
    returns (r: Result<Unit>)
    requires Settled(dev) && Reached(start, ps, flushed, dev.durable, dev.pending)
    requires flushed < |ps| && ps[flushed] == PageSectors(batch)
    requires OnDevice(batch, |dev.data|)
    modifies dev
    ensures dev.Valid() && |dev.data| == |old(dev.data)|
    ensures dev.cutAfter == old(dev.cutAfter) && (dev.powered ==> old(dev.powered))
    ensures r.Success? <==> dev.powered
    ensures r.Success? ==> Settled(dev) && Reached(start, ps, flushed + 1, dev.durable, dev.pending)
    ensures r.Failure? ==> r.error == Io && CutsWithin(dev, start, ps)
  {
    WritePages(dev, batch);
    assert [] + PageSectors(batch) == PageSectors(batch);
    r := Barrier(dev, start, ps, flushed);
  }

  /** The first batch, images and control body, and its barrier. */
  method StagePhase(dev: BlockDevice, staged: seq<PageWrite>, buf: CtrlBuf, ghost start: Disk, ghost ps: Phases)
    returns (r: Result<Unit>)
    requires Settled(dev) && Fits(dev.data) && Reached(start, ps, 0, dev.durable, dev.pending)
    requires 0 < |ps| && ps[0] == PageSectors(staged) + CtrlWrites(buf)
    requires OnDevice(staged, |dev.data|)
    modifies dev
    ensures dev.Valid() && |dev.data| == |old(dev.data)|
    ensures dev.cutAfter == old(dev.cutAfter) && (dev.powered ==> old(dev.powered))
    ensures r.Success? <==> dev.powered
    ensures r.Success? ==> Settled(dev) && Reached(start, ps, 1, dev.durable, dev.pending)
    ensures r.Failure? ==> r.error == Io && CutsWithin(dev, start, ps)
  {
    WritePages(dev, staged);
    assert [] + PageSectors(staged) == PageSectors(staged);
    WriteCtrl(dev, buf);
    r := Barrier(dev, start, ps, 0);
  }

  /** A rewrite of the control pages and its barrier. */
  method CtrlPhase(dev: BlockDevice, buf: CtrlBuf, ghost start: Disk, ghost ps: Phases, ghost flushed: nat)
    returns (r: Result<Unit>)
    requires Settled(dev) && Reached(start, ps, flushed, dev.durable, dev.pending)
    requires flushed < |ps| && ps[flushed] == CtrlWrites(buf) && Fits(dev.data)
    modifies dev
    ensures dev.Valid() && |dev.data| == |old(dev.data)|
    ensures dev.cutAfter == old(dev.cutAfter) && (dev.powered ==> old(dev.powered))
    ensures r.Success? <==> dev.powered
    ensures r.Success? ==> Settled(dev) && Reached(start, ps, flushed + 1, dev.durable, dev.pending)
    ensures r.Failure? ==> r.error == Io && CutsWithin(dev, start, ps)
  {
    WriteCtrl(dev, buf);
    assert [] + CtrlWrites(buf) == CtrlWrites(buf);
    r := Barrier(dev, start, ps, flushed);
  }

  lemma FinishedWithin(dev: BlockDevice, start: Disk, ps: Phases)
    requires Settled(dev) && Reached(start, ps, |ps|, dev.durable, dev.pending)
    ensures CutsWithin(dev, start, ps) && Survives(dev.durable, dev.pending, dev.data)
  {
    dev.LeavesData();
  }

  /** The first two batches: up to and including the commit point. */
  method UpToCommitPoint(dev: BlockDevice, staged: seq<PageWrite>, empty: CtrlBuf, full: CtrlBuf,
                         ghost start: Disk, ghost ps: Phases)
    returns (r: Result<Unit>)
    requires Settled(dev) && Fits(dev.data) && Reached(start, ps, 0, dev.durable, dev.pending)
    requires 2 <= |ps| && ps[0] == PageSectors(staged) + CtrlWrites(empty) && ps[1] == CtrlWrites(full)
    requires OnDevice(staged, |dev.data|)
    modifies dev
    ensures dev.Valid() && |dev.data| == |old(dev.data)|
    ensures dev.cutAfter == old(dev.cutAfter) && (dev.powered ==> old(dev.powered))
    ensures r.Success? <==> dev.powered
    ensures r.Success? ==> Settled(dev) && Reached(start, ps, 2, dev.durable, dev.pending)
    ensures r.Failure? ==> r.error == Io && CutsWithin(dev, start, ps)
  {
    // Stage images, then the EMPTY control body.
    r := StagePhase(dev, staged, empty, start, ps);
    if r.Failure? { return; }

    // Commit point.
    r := CtrlPhase(dev, full, start, ps, 1);
  }

  /** Two more batches: page writes, then a rewrite of the control pages. */
  method PagesThenCtrl(dev: BlockDevice, batch: seq<PageWrite>, buf: CtrlBuf,
                       ghost start: Disk, ghost ps: Phases, ghost flushed: nat)
    returns (r: Result<Unit>)
    requires Settled(dev) && Fits(dev.data) && Reached(start, ps, flushed, dev.durable, dev.pending)
    requires flushed + 2 <= |ps| && ps[flushed] == PageSectors(batch) && ps[flushed + 1] == CtrlWrites(buf)
    requires OnDevice(batch, |dev.data|)
    modifies dev
    ensures dev.Valid() && |dev.data| == |old(dev.data)|
    ensures dev.cutAfter == old(dev.cutAfter) && (dev.powered ==> old(dev.powered))
    ensures r.Success? <==> dev.powered
    ensures r.Success? ==> Settled(dev) && Reached(start, ps, flushed + 2, dev.durable, dev.pending)
    ensures r.Failure? ==> r.error == Io && CutsWithin(dev, start, ps)
  {
    r := PagesPhase(dev, batch, start, ps, flushed);
    if r.Failure? { return; }
    r := CtrlPhase(dev, buf, start, ps, flushed + 1);
  }

  /** The four-phase commit. On every return, with power or without, any subset of the writes that no barrier has
      covered may be lost: what is left is a crash image of the protocol. */
  method Commit(dev: BlockDevice, txid: u64, dirty: seq<PageWrite>) returns (r: Result<Unit>)
    requires Settled(dev) && Quiet(dev.data) && HomeWrites(dirty, |dev.data|)
    modifies dev
    ensures dev.Valid() && |dev.data| == |old(dev.data)| && dev.cutAfter == old(dev.cutAfter)
    ensures |dirty| > JCAP ==>
      r == Failure(OutOfSpace) && Settled(dev) && dev.data == old(dev.data) && dev.powered == old(dev.powered)
    ensures |dirty| <= JCAP ==>
      && CutsWithin(dev, old(dev.data), CommitPhases(txid, dirty))
      && (r.Success? <==> dev.powered) && (r.Failure? ==> r.error == Io)
    ensures r.Success? ==>
      Settled(dev) && Quiet(dev.data) && SameHome(dev.data, Install(old(dev.data), dirty))
    ensures dev.powered ==> old(dev.powered)
  {
    if |dirty| > JCAP {
      return Failure(OutOfSpace);
    }
    ghost var start, ps := dev.data, CommitPhases(txid, dirty);
    PhasesInJournal(txid, dirty, |start|);
    assert Reached(start, ps, 0, dev.durable, dev.pending);
    var entries := Targets(dirty);
    var empty := RenderCtrl(entries, txid, STATE_EMPTY);
    var full := RenderCtrl(entries, txid, STATE_COMMITTED);
    assert OnDevice(StagePages(dirty), |dev.data|);
    r := UpToCommitPoint(dev, StagePages(dirty), empty, full, start, ps);
    if r.Failure? { return; }
    // Install at home, then release the journal.
    r := PagesThenCtrl(dev, dirty, empty, start, ps, 2);
    if r.Failure? { return; }
    FinishedWithin(dev, start, ps);
    CommitAtomic(start, txid, dirty, 4, dev.durable, dev.pending, dev.data);
  }

  /** Copy the journaled images to their home pages; the journal pages they come from do not move meanwhile. */
  method CopyHome(dev: BlockDevice, entries: seq<u64>, ghost list: seq<PageWrite>)
    requires Settled(dev) && Fits(dev.data) && |entries| <= JCAP && HomeWrites(list, |dev.data|)
    requires |list| == |entries|
    requires forall i :: 0 <= i < |list| ==> list[i] == PageWrite(entries[i], DiskPage(dev.data, 5 + i))
    modifies dev
    ensures dev.Valid() && dev.durable == old(dev.durable) && dev.cutAfter == old(dev.cutAfter)
    ensures dev.pending == PageSectors(list)
    ensures dev.powered ==> old(dev.powered)
  {
    ghost var start := dev.data;
    for i := 0 to |entries|
      invariant dev.Valid() && dev.durable == start && dev.cutAfter == old(dev.cutAfter)
      invariant dev.pending == PageSectors(list[..i])
      invariant dev.powered ==> old(dev.powered)
    {
      JournalFrame(start, list[..i], dev.data);
      var page := ReadPage(dev, JDATA_START_PAGE + i);
      SameDataPage(start, dev.data, 5 + i);
      assert HomePage(list[i].page, |start|);
      WritePage(dev, entries[i], page.value);
      PageSectorsConcat(list[..i], [list[i]]);
      assert list[..i] + [list[i]] == list[..i + 1];
    }
    assert list[..|entries|] == list;
  }

  /** Both batches of a recovery: the redo, then the release of the journal. */
  method RedoPhases(dev: BlockDevice, entries: seq<u64>, ghost list: seq<PageWrite>, ghost start: Disk,
                    ghost ps: Phases)
    returns (r: Result<Unit>)
    requires Settled(dev) && Fits(dev.data) && |entries| <= JCAP && HomeWrites(list, |dev.data|)
    requires |list| == |entries|
    requires forall i :: 0 <= i < |list| ==> list[i] == PageWrite(entries[i], DiskPage(dev.data, 5 + i))
    requires Reached(start, ps, 0, dev.durable, dev.pending)
    requires ps == [PageSectors(list), CtrlWrites(Render(entries, 0, STATE_EMPTY))]
    modifies dev
    ensures dev.Valid() && |dev.data| == |old(dev.data)|
    ensures dev.cutAfter == old(dev.cutAfter) && (dev.powered ==> old(dev.powered))
    ensures r.Success? <==> dev.powered
    ensures r.Success? ==> Settled(dev) && Reached(start, ps, 2, dev.durable, dev.pending)
    ensures r.Failure? ==> r.error == Io && CutsWithin(dev, start, ps)
  {
    CopyHome(dev, entries, list);
    r := Barrier(dev, start, ps, 0);
    if r.Failure? { return; }
    var empty := RenderCtrl(entries, 0, STATE_EMPTY);
    r := CtrlPhase(dev, empty, start, ps, 1);
  }

  /** Redo a committed transaction that was not installed. Says whether there was one. */
  method Recover(dev: BlockDevice) returns (r: Result<bool>)
    requires Settled(dev) && Sound(dev.data)
    modifies dev
    ensures dev.Valid() && |dev.data| == |old(dev.data)| && dev.cutAfter == old(dev.cutAfter)
    ensures CutsWithin(dev, old(dev.data), RecoverPhases(old(dev.data)))
    ensures r.Success? ==>
      && r.value == Redo(old(dev.data)).Some?
      && Settled(dev) && Quiet(dev.data) && SameHome(dev.data, Logical(old(dev.data)))
    ensures r.Failure? ==> r.error == Io && !dev.powered
    ensures dev.powered ==> old(dev.powered)
  {
    ghost var start, ps := dev.data, RecoverPhases(dev.data);
    RecoverInRange(start);
    assert Reached(start, ps, 0, dev.durable, dev.pending);
    var ctrl := ReadCtrl(dev);
    if ctrl.None? || ctrl.value.state != STATE_COMMITTED {
      FinishedWithin(dev, start, ps);
      return Success(false);
    }
    var entries := ctrl.value.entries;
    assert Targets(Redo(start).value) == entries;
    var done := RedoPhases(dev, entries, Redo(start).value, start, ps);
    if done.Failure? { return Failure(Io); }
    FinishedWithin(dev, start, ps);
    RecoverAtomic(start, 2, dev.durable, dev.pending, dev.data);
    return Success(true);
  }
}
