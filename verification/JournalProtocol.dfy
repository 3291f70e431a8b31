/** The write-ahead protocol as phases of sector writes, and what every crash leaves recoverable. */
module JournalProtocol {
  import opened Errors
  import opened Bytes
  import opened Block
  import opened JournalFormat

  // Sector arithmetic is written with the layout's numbers: control pages 1..4 are sectors
  // 8..39, data pages JDATA_START_PAGE = 5 .. 2048 are sectors 40..16391.

  /** Sector `k` of the `i`-th journal data page. */
  function StageLba(i: nat, k: nat): nat {
    (5 + i) * 8 + k
  }

  /** Pages 1 to 2048 belong to the journal; the rest are home pages. */
  predicate JournalSector(s: nat) {
    8 <= s < 16392
  }

  predicate HomePage(p: nat, sectors: nat) {
    (p == 0 || 2049 <= p) && p * 8 + 8 <= sectors
  }

  predicate HomeWrites(ps: seq<PageWrite>, sectors: nat) {
    forall i :: 0 <= i < |ps| ==> HomePage(ps[i].page, sectors)
  }

  predicate Fits(d: Disk) {
    16392 <= |d|
  }

  /** A write-set `commit` accepts. */
  predicate ValidBatch(dirty: seq<PageWrite>, sectors: nat) {
    |dirty| <= JCAP && HomeWrites(dirty, sectors)
  }

  function Targets(ps: seq<PageWrite>): (es: seq<u64>)
    ensures |es| == |ps|
  {
    seq(|ps|, i requires 0 <= i < |ps| => ps[i].page)
  }

  /** The journal copy of a write-set: one data page per image. */
  function StagePages(ps: seq<PageWrite>): (staged: seq<PageWrite>)
    requires |ps| <= JCAP
    ensures |staged| == |ps|
  {
    seq(|ps|, i requires 0 <= i < |ps| => PageWrite(5 + i, ps[i].image))
  }

  function CommitPhases(txid: u64, dirty: seq<PageWrite>): (ps: Phases)
    requires |dirty| <= JCAP
    ensures |ps| == 4
  {
    var entries := Targets(dirty);
    [ PageSectors(StagePages(dirty)) + CtrlWrites(Render(entries, txid, STATE_EMPTY)),
      CtrlWrites(Render(entries, txid, STATE_COMMITTED)),
      PageSectors(dirty),
      CtrlWrites(Render(entries, txid, STATE_EMPTY)) ]
  }

  /** The committed transaction the journal still holds, with its images, if there is one. */
  function Redo(d: Disk): (r: Option<seq<PageWrite>>)
    requires Fits(d)
    ensures r.Some? ==> |r.value| <= JCAP
  {
    var ctrl := ParseCtrl(CtrlOf(d));
    if ctrl.None? || ctrl.value.state != STATE_COMMITTED then None
    else
      var es := ctrl.value.entries;
      Some(seq(|es|, i requires 0 <= i < |es| => PageWrite(es[i], DiskPage(d, 5 + i))))
  }

  function RecoverPhases(d: Disk): (ps: Phases)
    requires Fits(d)
  {
    match Redo(d)
    case None => []
    case Some(list) => [PageSectors(list), CtrlWrites(Render(Targets(list), 0, STATE_EMPTY))]
  }

  /** A medium recovery can deal with: a COMMITTED header is genuine and names home pages. */
  ghost predicate Sound(d: Disk) {
    Fits(d)
    && (StateField(CtrlOf(d)) == STATE_COMMITTED ==> Redo(d).Some? && HomeWrites(Redo(d).value, |d|))
  }

  /** No transaction in flight: the journal is not COMMITTED. */
  ghost predicate Quiet(d: Disk) {
    Fits(d) && StateField(CtrlOf(d)) != STATE_COMMITTED
  }

  function Install(d: Disk, ps: seq<PageWrite>): (r: Disk)
    requires HomeWrites(ps, |d|)
    ensures |r| == |d|
  {
    PageSectorsInRange(ps, |d|);
    ApplyAll(d, PageSectors(ps))
  }

  /** The home pages a completed recovery will show. */
  ghost function Logical(d: Disk): (r: Disk)
    requires Sound(d)
    ensures |r| == |d|
  {
    match Redo(d)
    case None => d
    case Some(list) => Install(d, list)
  }

  ghost predicate SameHome(a: Disk, b: Disk) {
    |a| == |b| && forall s :: 0 <= s < |a| && !JournalSector(s) ==> a[s] == b[s]
  }

  // ---- where the writes go ----------------------------------------------------

  lemma PageSectorsInRange(ps: seq<PageWrite>, sectors: nat)
    requires forall i :: 0 <= i < |ps| ==> ps[i].page * 8 + 8 <= sectors
    ensures InRange(PageSectors(ps), sectors)
  {
    forall j | 0 <= j < 8 * |ps|
      ensures PageSectors(ps)[j].lba < sectors
    {
      assert ps[j / 8].page * 8 + 8 <= sectors;
    }
  }

  lemma HomeMissesJournal(ps: seq<PageWrite>, sectors: nat, s: nat)
    requires HomeWrites(ps, sectors) && JournalSector(s)
    ensures !Hits(PageSectors(ps), s)
  {
    forall j | 0 <= j < 8 * |ps|
      ensures PageSectors(ps)[j].lba != s
    {
      assert HomePage(ps[j / 8].page, sectors);
    }
  }

  lemma PhasesInJournal(txid: u64, dirty: seq<PageWrite>, sectors: nat)
    requires ValidBatch(dirty, sectors) && 16392 <= sectors
    ensures PhasesInRange(CommitPhases(txid, dirty), sectors)
  {
    PageSectorsInRange(StagePages(dirty), sectors);
    PageSectorsInRange(dirty, sectors);
  }

  lemma StageCarries(dirty: seq<PageWrite>, i: nat, k: nat)
    requires i < |dirty| <= JCAP && k < 8
    ensures Carries(PageSectors(StagePages(dirty)), StageLba(i, k), PageSector(dirty[i].image, k))
  {
    var ws, s := PageSectors(StagePages(dirty)), StageLba(i, k);
    assert (8 * i + k) / 8 == i && (8 * i + k) % 8 == k;
    assert ws[8 * i + k].lba == s;
    forall j | 0 <= j < |ws| && ws[j].lba == s
      ensures ws[j].sector == PageSector(dirty[i].image, k)
    {
      assert ws[j].lba == (5 + j / 8) * 8 + j % 8;
      assert j / 8 == i && j % 8 == k;
    }
  }

  lemma StateInHeader(d: Disk)
    requires Fits(d)
    ensures StateField(CtrlOf(d)) == GetU32(d[8], 8)
  {
    assert CtrlOf(d)[8..12] == d[8][8..12];
  }

  lemma RenderedState(entries: seq<u64>, txid: u64, state: u32)
    requires |entries| <= JCAP
    ensures GetU32(CtrlSector(Render(entries, txid, state), 0), 8) == state
  {
    var buf := Render(entries, txid, state);
    RenderHeader(entries, txid, state);
    assert CtrlSector(buf, 0)[8..12] == buf[8..12];
  }

  // ---- the media between the phases ---------------------------------------------

  /** The data pages of the journal hold the images of `dirty`. */
  ghost predicate Staged(d: Disk, dirty: seq<PageWrite>) {
    && Fits(d) && |dirty| <= JCAP
    && forall i, k :: 0 <= i < |dirty| && 0 <= k < 8 ==>
         d[StageLba(i, k)] == PageSector(dirty[i].image, k)
  }

  /** The control pages hold exactly this rendering. */
  ghost predicate Controls(d: Disk, buf: CtrlBuf) {
    Fits(d) && forall q :: 0 <= q < 32 ==> d[8 + q] == CtrlSector(buf, q)
  }

  lemma StagedFrame(d: Disk, ws: seq<Write>, dirty: seq<PageWrite>, image: Disk)
    requires Staged(d, dirty) && Between(d, ws, image)
    requires forall i :: 0 <= i < |ws| ==> !(40 <= ws[i].lba < 16392)
    ensures Staged(image, dirty)
  {
    forall i, k | 0 <= i < |dirty| && 0 <= k < 8
      ensures image[StageLba(i, k)] == PageSector(dirty[i].image, k)
    {
      var s := StageLba(i, k);
      assert !WroteAt(ws, s, image[s]);
    }
  }

  lemma WriteControls(d: Disk, buf: CtrlBuf)
    requires Fits(d)
    ensures Controls(ApplyAll(d, CtrlWrites(buf)), buf)
    ensures SameHome(ApplyAll(d, CtrlWrites(buf)), d)
  {
    var r := ApplyAll(d, CtrlWrites(buf));
    forall q | 0 <= q < 32
      ensures r[8 + q] == CtrlSector(buf, q)
    {
      assert CtrlWrites(buf)[q].lba == 8 + q;
      ApplyHit(d, CtrlWrites(buf), 8 + q, CtrlSector(buf, q));
    }
    forall s | 0 <= s < |d| && !JournalSector(s)
      ensures r[s] == d[s]
    {
      ApplyMiss(d, CtrlWrites(buf), s);
    }
  }

  /** A control sector is never anything but its old or its new content. */
  lemma ControlsBetween(d: Disk, buf: CtrlBuf, image: Disk)
    requires Fits(d) && Between(d, CtrlWrites(buf), image)
    ensures SameHome(image, d)
    ensures forall q :: 0 <= q < 32 ==> image[8 + q] == d[8 + q] || image[8 + q] == CtrlSector(buf, q)
    ensures forall s :: 40 <= s < |d| ==> image[s] == d[s]
  {
    forall s | 0 <= s < |d|
      ensures image[s] == d[s] || (8 <= s < 40 && image[s] == CtrlSector(buf, s - 8))
    {
      if image[s] != d[s] {
        var i :| 0 <= i < 32 && CtrlWrites(buf)[i] == Write(s, image[s]);
      }
    }
  }

  lemma StagedSector(d: Disk, dirty: seq<PageWrite>, i: nat, k: nat)
    requires Fits(d) && i < |dirty| <= JCAP && k < 8
    requires InRange(PageSectors(StagePages(dirty)), |d|)
    ensures ApplyAll(d, PageSectors(StagePages(dirty)))[StageLba(i, k)] == PageSector(dirty[i].image, k)
  {
    StageCarries(dirty, i, k);
    ApplyHit(d, PageSectors(StagePages(dirty)), StageLba(i, k), PageSector(dirty[i].image, k));
  }

  lemma StageImages(d: Disk, dirty: seq<PageWrite>)
    requires Fits(d) && |dirty| <= JCAP
    ensures InRange(PageSectors(StagePages(dirty)), |d|)
    ensures var mid := ApplyAll(d, PageSectors(StagePages(dirty))); Staged(mid, dirty) && SameHome(mid, d)
  {
    var stage := PageSectors(StagePages(dirty));
    PageSectorsInRange(StagePages(dirty), |d|);
    var mid := ApplyAll(d, stage);
    forall i, k | 0 <= i < |dirty| && 0 <= k < 8
      ensures mid[StageLba(i, k)] == PageSector(dirty[i].image, k)
    {
      StagedSector(d, dirty, i, k);
    }
    forall s | 0 <= s < |d| && !JournalSector(s)
      ensures mid[s] == d[s]
    {
      StageMissesHome(dirty, s);
      ApplyMiss(d, stage, s);
    }
  }

  lemma StageMissesHome(dirty: seq<PageWrite>, s: nat)
    requires |dirty| <= JCAP && !(40 <= s < 16392)
    ensures !Hits(PageSectors(StagePages(dirty)), s)
  {
  }

  lemma ControlsKeepStaged(d: Disk, dirty: seq<PageWrite>, buf: CtrlBuf)
    requires Staged(d, dirty)
    ensures Staged(ApplyAll(d, CtrlWrites(buf)), dirty)
  {
    ApplyBetween(d, CtrlWrites(buf));
    StagedFrame(d, CtrlWrites(buf), dirty, ApplyAll(d, CtrlWrites(buf)));
  }

  lemma StageThenControl(d: Disk, stage: seq<Write>, dirty: seq<PageWrite>, buf: CtrlBuf)
    requires Fits(d) && InRange(stage, |d|)
    requires Staged(ApplyAll(d, stage), dirty) && SameHome(ApplyAll(d, stage), d)
    ensures InRange(stage + CtrlWrites(buf), |d|)
    ensures var r := ApplyAll(d, stage + CtrlWrites(buf)); Staged(r, dirty) && Controls(r, buf) && SameHome(r, d)
  {
    ApplyConcat(d, stage, CtrlWrites(buf));
    WriteControls(ApplyAll(d, stage), buf);
    ControlsKeepStaged(ApplyAll(d, stage), dirty, buf);
  }

  /** After the first phase: everything staged, control EMPTY, home untouched. */
  lemma AfterStaging(d: Disk, txid: u64, dirty: seq<PageWrite>)
    requires Fits(d) && ValidBatch(dirty, |d|)
    ensures PhasesInRange(CommitPhases(txid, dirty), |d|)
    ensures var d1 := ApplyAll(d, CommitPhases(txid, dirty)[0]);
      && Staged(d1, dirty) && Controls(d1, Render(Targets(dirty), txid, STATE_EMPTY)) && SameHome(d1, d)
  {
    PhasesInJournal(txid, dirty, |d|);
    StageImages(d, dirty);
    StageThenControl(d, PageSectors(StagePages(dirty)), dirty, Render(Targets(dirty), txid, STATE_EMPTY));
  }

  /** A COMMITTED control block over staged images is exactly a pending redo of them. */
  lemma CommittedRedo(d: Disk, txid: u64, dirty: seq<PageWrite>)
    requires Staged(d, dirty) && HomeWrites(dirty, |d|)
    requires Controls(d, Render(Targets(dirty), txid, STATE_COMMITTED))
    ensures Redo(d) == Some(dirty) && Sound(d) && Logical(d) == Install(d, dirty)
  {
    var buf := Render(Targets(dirty), txid, STATE_COMMITTED);
    CtrlOfFrom(d, buf);
    RenderParse(Targets(dirty), txid, STATE_COMMITTED);
    var list := Redo(d).value;
    forall i | 0 <= i < |dirty|
      ensures list[i] == dirty[i]
    {
      DiskPageFrom(d, 5 + i, dirty[i].image);
    }
    assert list == dirty;
  }

  lemma QuietLogical(d: Disk)
    requires Quiet(d)
    ensures Sound(d) && Redo(d) == None && Logical(d) == d
  {
  }

  lemma EmptyControlsQuiet(d: Disk, entries: seq<u64>, txid: u64)
    requires Fits(d) && |entries| <= JCAP
    requires d[8] == CtrlSector(Render(entries, txid, STATE_EMPTY), 0)
    ensures Quiet(d)
  {
    StateInHeader(d);
    RenderedState(entries, txid, STATE_EMPTY);
  }

  /** Installing the same pages over media with the same home gives the same home. */
  lemma InstallSameHome(a: Disk, b: Disk, ps: seq<PageWrite>)
    requires SameHome(a, b) && HomeWrites(ps, |a|)
    ensures SameHome(Install(a, ps), Install(b, ps))
  {
    PageSectorsInRange(ps, |a|);
    forall s | 0 <= s < |a| && !JournalSector(s)
      ensures Install(a, ps)[s] == Install(b, ps)[s]
    {
      ApplyAgree(a, b, PageSectors(ps), s);
    }
  }

  /** Redoing over a partly or wholly installed write-set installs it. */
  lemma RedoOverTorn(d: Disk, ps: seq<PageWrite>, image: Disk)
    requires HomeWrites(ps, |d|) && Between(d, PageSectors(ps), image)
    ensures Install(image, ps) == Install(d, ps)
  {
    var ws := PageSectors(ps);
    PageSectorsInRange(ps, |d|);
    forall s | 0 <= s < |d|
      ensures Install(image, ps)[s] == Install(d, ps)[s]
    {
      if image[s] != d[s] {
        var i :| 0 <= i < |ws| && ws[i] == Write(s, image[s]);
        assert Hits(ws, s);
      }
      ApplyAgree(image, d, ws, s);
    }
  }

  lemma JournalFrame(d: Disk, ps: seq<PageWrite>, image: Disk)
    requires HomeWrites(ps, |d|) && Between(d, PageSectors(ps), image)
    ensures forall s :: 0 <= s < |d| && JournalSector(s) ==> image[s] == d[s]
  {
    forall s | 0 <= s < |d| && JournalSector(s)
      ensures image[s] == d[s]
    {
      HomeMissesJournal(ps, |d|, s);
      assert !WroteAt(PageSectors(ps), s, image[s]);
    }
  }

  // ---- commit: every crash is all or nothing ---------------------------------------

  lemma CrashWhileStaging(d: Disk, txid: u64, dirty: seq<PageWrite>, image: Disk)
    requires Quiet(d) && ValidBatch(dirty, |d|)
    requires Between(d, CommitPhases(txid, dirty)[0], image)
    ensures Quiet(image) && SameHome(image, d)
  {
    var stage, buf := PageSectors(StagePages(dirty)), Render(Targets(dirty), txid, STATE_EMPTY);
    forall s | 0 <= s < |d| && image[s] != d[s]
      ensures JournalSector(s) && (s == 8 ==> image[s] == CtrlSector(buf, 0))
    {
      var i :| 0 <= i < |stage + CtrlWrites(buf)| && (stage + CtrlWrites(buf))[i] == Write(s, image[s]);
    }
    if image[8] == d[8] {
      StateInHeader(d);
      StateInHeader(image);
    } else {
      EmptyControlsQuiet(image, Targets(dirty), txid);
    }
  }

  /** The commit point: one sector decides, and it holds either of its two images. */
  lemma CrashAtCommitPoint(d: Disk, txid: u64, dirty: seq<PageWrite>, image: Disk)
    requires Staged(d, dirty) && HomeWrites(dirty, |d|)
    requires Controls(d, Render(Targets(dirty), txid, STATE_EMPTY))
    requires Between(d, CtrlWrites(Render(Targets(dirty), txid, STATE_COMMITTED)), image)
    ensures Sound(image)
    ensures SameHome(Logical(image), d) || SameHome(Logical(image), Install(d, dirty))
  {
    var entries := Targets(dirty);
    var empty, full := Render(entries, txid, STATE_EMPTY), Render(entries, txid, STATE_COMMITTED);
    ControlsBetween(d, full, image);
    assert CtrlWrites(full)[0].lba == 8;
    assert d[8 + 0] == CtrlSector(empty, 0);
    if image[8 + 0] == CtrlSector(full, 0) {
      forall q | 0 <= q < 32
        ensures image[8 + q] == CtrlSector(full, q)
      {
        if q > 0 {
          RenderDiffersInHeader(entries, txid, STATE_EMPTY, txid, STATE_COMMITTED, q);
        }
      }
      StagedFrame(d, CtrlWrites(full), dirty, image);
      CommittedRedo(image, txid, dirty);
      InstallSameHome(image, d, dirty);
    } else {
      EmptyControlsQuiet(image, entries, txid);
      QuietLogical(image);
    }
  }

  lemma CrashWhileInstalling(d: Disk, txid: u64, dirty: seq<PageWrite>, image: Disk)
    requires Staged(d, dirty) && HomeWrites(dirty, |d|)
    requires Controls(d, Render(Targets(dirty), txid, STATE_COMMITTED))
    requires Between(d, PageSectors(dirty), image)
    ensures Sound(image) && Logical(image) == Install(d, dirty)
  {
    JournalFrame(d, dirty, image);
    CommittedRedo(image, txid, dirty);
    RedoOverTorn(d, dirty, image);
  }

  lemma CrashWhileReleasing(d: Disk, txid: u64, dirty: seq<PageWrite>, image: Disk)
    requires Staged(d, dirty) && HomeWrites(dirty, |d|)
    requires Controls(d, Render(Targets(dirty), txid, STATE_COMMITTED))
    requires Install(d, dirty) == d
    requires Between(d, CtrlWrites(Render(Targets(dirty), txid, STATE_EMPTY)), image)
    ensures Sound(image) && SameHome(Logical(image), d)
  {
    var entries := Targets(dirty);
    var empty, full := Render(entries, txid, STATE_EMPTY), Render(entries, txid, STATE_COMMITTED);
    ControlsBetween(d, empty, image);
    assert d[8 + 0] == CtrlSector(full, 0);
    if image[8 + 0] == CtrlSector(empty, 0) {
      EmptyControlsQuiet(image, entries, txid);
      QuietLogical(image);
    } else {
      forall q | 0 <= q < 32
        ensures image[8 + q] == CtrlSector(full, q)
      {
        if q > 0 {
          RenderDiffersInHeader(entries, txid, STATE_EMPTY, txid, STATE_COMMITTED, q);
        }
      }
      StagedFrame(d, CtrlWrites(empty), dirty, image);
      CommittedRedo(image, txid, dirty);
      InstallSameHome(image, d, dirty);
    }
  }

  /** The media at the four barriers of a commit. */
  ghost predicate AtBarrier(start: Disk, txid: u64, dirty: seq<PageWrite>, flushed: nat, d: Disk)
    requires Fits(start) && ValidBatch(dirty, |start|)
  {
    var entries := Targets(dirty);
    && |d| == |start|
    && (flushed == 0 ==> d == start)
    && (1 <= flushed ==> Staged(d, dirty))
    && (1 <= flushed <= 2 ==> SameHome(d, start))
    && (3 <= flushed <= 4 ==> SameHome(d, Install(start, dirty)) && Install(d, dirty) == d)
    && (flushed == 1 || flushed == 4 ==> Controls(d, Render(entries, txid, STATE_EMPTY)))
    && (flushed == 2 || flushed == 3 ==> Controls(d, Render(entries, txid, STATE_COMMITTED)))
  }

  lemma {:induction false} Barriers(start: Disk, txid: u64, dirty: seq<PageWrite>, flushed: nat)
    requires Fits(start) && ValidBatch(dirty, |start|) && flushed <= 4
    ensures PhasesInRange(CommitPhases(txid, dirty), |start|)
    ensures AtBarrier(start, txid, dirty, flushed, ApplyPhases(start, CommitPhases(txid, dirty)[..flushed]))
  {
    var ps := CommitPhases(txid, dirty);
    PhasesInJournal(txid, dirty, |start|);
    if flushed > 0 {
      Barriers(start, txid, dirty, flushed - 1);
      assert ps[..flushed][..flushed - 1] == ps[..flushed - 1];
      var d, r := ApplyPhases(start, ps[..flushed - 1]), ApplyPhases(start, ps[..flushed]);
      assert r == ApplyAll(d, ps[flushed - 1]);
      if flushed == 1 {
        AfterStaging(start, txid, dirty);
      } else if flushed == 3 {
        ApplyBetween(d, ps[flushed - 1]);
        JournalFrame(d, dirty, r);
        InstallSameHome(d, start, dirty);
        RedoOverTorn(d, dirty, r);
      } else {
        var buf := Render(Targets(dirty), txid, if flushed == 2 then STATE_COMMITTED else STATE_EMPTY);
        WriteControls(d, buf);
        ControlsKeepStaged(d, dirty, buf);
        if flushed == 4 {
          InstallStillDone(d, dirty, r);
        }
      }
    }
  }

  lemma InstallStillDone(d: Disk, dirty: seq<PageWrite>, r: Disk)
    requires HomeWrites(dirty, |d|) && Install(d, dirty) == d && SameHome(r, d)
    ensures Install(r, dirty) == r
  {
    var ws := PageSectors(dirty);
    PageSectorsInRange(dirty, |d|);
    forall s | 0 <= s < |d|
      ensures Install(r, dirty)[s] == r[s]
    {
      if JournalSector(s) {
        HomeMissesJournal(dirty, |d|, s);
        ApplyMiss(r, ws, s);
      } else {
        ApplyAgree(r, d, ws, s);
      }
    }
  }

  /** Crash atomicity of `commit`: whatever a power cut leaves recovers to all old or all new. */
  lemma CommitAtomic(start: Disk, txid: u64, dirty: seq<PageWrite>, flushed: nat, durable: Disk,
                     pending: seq<Write>, image: Disk)
    requires Quiet(start) && ValidBatch(dirty, |start|)
    requires Reached(start, CommitPhases(txid, dirty), flushed, durable, pending)
    requires Survives(durable, pending, image)
    ensures Sound(image) && |image| == |start|
    ensures SameHome(Logical(image), start) || SameHome(Logical(image), Install(start, dirty))
    ensures flushed == 0 ==> SameHome(Logical(image), start)
    ensures flushed >= 2 ==> SameHome(Logical(image), Install(start, dirty))
    ensures flushed == 4 ==> Quiet(image) && image == durable && SameHome(image, Install(start, dirty))
  {
    var ps := CommitPhases(txid, dirty);
    Barriers(start, txid, dirty, flushed);
    SurvivesIffBetween(durable, pending, image);
    if flushed < 4 {
      BetweenPrefix(durable, pending, ps[flushed], image);
    }
    if flushed == 0 {
      CrashWhileStaging(start, txid, dirty, image);
      QuietLogical(image);
    } else if flushed == 1 {
      CrashAtCommitPoint(durable, txid, dirty, image);
      InstallSameHome(durable, start, dirty);
    } else if flushed == 2 {
      CrashWhileInstalling(durable, txid, dirty, image);
      InstallSameHome(durable, start, dirty);
    } else if flushed == 3 {
      CrashWhileReleasing(durable, txid, dirty, image);
    } else {
      assert image == durable;
      assert image[8 + 0] == CtrlSector(Render(Targets(dirty), txid, STATE_EMPTY), 0);
      EmptyControlsQuiet(image, Targets(dirty), txid);
      QuietLogical(image);
    }
  }

  // ---- recover: every crash keeps the logical content --------------------------------

  lemma RecoverInRange(d: Disk)
    requires Sound(d)
    ensures PhasesInRange(RecoverPhases(d), |d|)
  {
    if Redo(d).Some? {
      PageSectorsInRange(Redo(d).value, |d|);
    }
  }

  lemma SameParse(a: CtrlBuf, b: CtrlBuf, count: nat)
    requires ParseCtrl(b).Some? && count == |ParseCtrl(b).value.entries|
    requires a[..32] == b[..32] && count <= JCAP && EntriesIn(a, count) == EntriesIn(b, count)
    ensures ParseCtrl(a) == ParseCtrl(b)
  {
    assert a[0..4] == a[..32][0..4] == b[0..4];
    assert a[8..12] == a[..32][8..12] == b[8..12];
    assert a[12..16] == a[..32][12..16] == b[12..16];
    assert a[16..24] == a[..32][16..24] == b[16..24];
    assert a[24..32] == a[..32][24..32] == b[24..32];
  }

  /** The redo depends only on the header sector, the entries and the staged pages. */
  lemma SameRedo(d: Disk, image: Disk)
    requires Sound(d) && Redo(d).Some? && |image| == |d|
    requires image[8] == d[8]
    requires forall s :: 40 <= s < 16392 ==> image[s] == d[s]
    requires EntriesIn(CtrlOf(image), |Redo(d).value|) == EntriesIn(CtrlOf(d), |Redo(d).value|)
    ensures Redo(image) == Redo(d) && Sound(image)
  {
    assert CtrlOf(image)[..32] == image[8][..32] && CtrlOf(d)[..32] == d[8][..32];
    hide CtrlOf, EntriesIn, DiskPage, ParseCtrl;
    SameParse(CtrlOf(image), CtrlOf(d), |Redo(d).value|);
    var x, y := Redo(image).value, Redo(d).value;
    forall i | 0 <= i < |y|
      ensures x[i] == y[i]
    {
      SameDataPage(d, image, 5 + i);
    }
    assert x == y;
  }

  lemma SameDataPage(d: Disk, image: Disk, p: nat)
    requires Fits(d) && |image| == |d| && 5 <= p < 2049
    requires forall s :: 40 <= s < 16392 ==> image[s] == d[s]
    ensures DiskPage(image, p) == DiskPage(d, p)
  {
  }

  lemma CrashWhileRedoing(d: Disk, image: Disk)
    requires Sound(d) && Redo(d).Some? && Between(d, PageSectors(Redo(d).value), image)
    ensures Sound(image) && Redo(image) == Redo(d) && Logical(image) == Logical(d)
  {
    var list := Redo(d).value;
    JournalFrame(d, list, image);
    assert CtrlOf(image) == CtrlOf(d);
    SameRedo(d, image);
    RedoOverTorn(d, list, image);
  }

  /** An aligned field lies within one control sector. */
  lemma FieldInSector(d: Disk, buf: CtrlBuf, o: nat)
    requires Fits(d) && o + 8 <= CTRL_BYTES && o % 8 == 0
    requires d[8 + o / 512] == CtrlSector(buf, o / 512)
    ensures GetU64(CtrlOf(d), o) == GetU64(buf, o)
  {
    var q, k := o / 512, o % 512;
    CtrlOfSector(d, q);
    SliceOfSlice(CtrlOf(d), q * 512, q * 512 + 512, k, k + 8);
    SliceOfSlice(buf, q * 512, q * 512 + 512, k, k + 8);
  }

  /** So a torn control block still reads the same entries. */
  lemma TornEntry(d: Disk, entries: seq<u64>, image: Disk, i: nat)
    requires Fits(d) && |image| == |d| && i < |entries| <= JCAP
    requires EntriesIn(CtrlOf(d), |entries|) == entries
    requires forall q :: 0 <= q < 32 ==>
      image[8 + q] == d[8 + q] || image[8 + q] == CtrlSector(Render(entries, 0, STATE_EMPTY), q)
    ensures GetU64(CtrlOf(image), HEADER_LEN + i * 8) == entries[i]
  {
    hide Render, CtrlOf, CtrlSector, GetU64;
    var o := HEADER_LEN + i * 8;
    if image[8 + o / 512] == d[8 + o / 512] {
      CtrlOfSector(d, o / 512);
      FieldInSector(image, CtrlOf(d), o);
      assert EntriesIn(CtrlOf(d), |entries|)[i] == GetU64(CtrlOf(d), o);
    } else {
      var buf := Render(entries, 0, STATE_EMPTY);
      FieldInSector(image, buf, o);
      RenderParse(entries, 0, STATE_EMPTY);
      RenderHeader(entries, 0, STATE_EMPTY);
      assert EntriesIn(buf, |entries|)[i] == GetU64(buf, o);
    }
  }

  lemma RedoHome(d: Disk)
    requires Sound(d) && Redo(d).Some?
    ensures HomeWrites(Redo(d).value, |d|) && Logical(d) == Install(d, Redo(d).value)
  {
  }

  lemma RedoEntries(d: Disk)
    requires Fits(d) && Redo(d).Some?
    ensures EntriesIn(CtrlOf(d), |Redo(d).value|) == Targets(Redo(d).value)
  {
    hide EntriesIn, DiskPage, CtrlOf;
    assert Targets(Redo(d).value) == ParseCtrl(CtrlOf(d)).value.entries;
  }

  lemma CrashWhileClearing(d: Disk, image: Disk)
    requires Sound(d) && Redo(d).Some?
    requires Between(Logical(d), CtrlWrites(Render(Targets(Redo(d).value), 0, STATE_EMPTY)), image)
    ensures Sound(image) && SameHome(Logical(image), Logical(d))
  {
    hide Render, Redo, EntriesIn, CtrlOf, CtrlSector, Targets;
    RedoHome(d);
    var list := Redo(d).value;
    var entries, done := Targets(list), Logical(d);
    var buf := Render(entries, 0, STATE_EMPTY);
    PageSectorsInRange(list, |d|);
    ApplyBetween(d, PageSectors(list));
    CrashWhileRedoing(d, done);
    ControlsBetween(done, buf, image);
    if image[8 + 0] == CtrlSector(buf, 0) {
      EmptyControlsQuiet(image, entries, 0);
      QuietLogical(image);
    } else {
      RedoEntries(done);
      TornEntries(done, entries, image);
      SameRedo(done, image);
      InstallSameHome(image, done, list);
    }
  }

  lemma TornEntries(d: Disk, entries: seq<u64>, image: Disk)
    requires Fits(d) && |image| == |d| && |entries| <= JCAP
    requires EntriesIn(CtrlOf(d), |entries|) == entries
    requires forall q :: 0 <= q < 32 ==>
      image[8 + q] == d[8 + q] || image[8 + q] == CtrlSector(Render(entries, 0, STATE_EMPTY), q)
    ensures EntriesIn(CtrlOf(image), |entries|) == entries
  {
    hide Render, CtrlOf, CtrlSector;
    forall i | 0 <= i < |entries|
      ensures EntriesIn(CtrlOf(image), |entries|)[i] == entries[i]
    {
      TornEntry(d, entries, image, i);
    }
  }

  lemma RecoverDone(d: Disk)
    requires Sound(d) && Redo(d).Some?
    ensures var r := ApplyAll(Logical(d), CtrlWrites(Render(Targets(Redo(d).value), 0, STATE_EMPTY)));
      Quiet(r) && SameHome(r, Logical(d))
  {
    var entries := Targets(Redo(d).value);
    var buf := Render(entries, 0, STATE_EMPTY);
    var r := ApplyAll(Logical(d), CtrlWrites(buf));
    WriteControls(Logical(d), buf);
    assert r[8 + 0] == CtrlSector(buf, 0);
    EmptyControlsQuiet(r, entries, 0);
  }

  lemma RecoverBarriers(d: Disk)
    requires Sound(d) && Redo(d).Some?
    ensures PhasesInRange(RecoverPhases(d), |d|)
    ensures ApplyPhases(d, RecoverPhases(d)[..0]) == d
    ensures ApplyPhases(d, RecoverPhases(d)[..1]) == Logical(d)
    ensures ApplyPhases(d, RecoverPhases(d)[..2]) == ApplyAll(Logical(d), RecoverPhases(d)[1])
  {
    var ps := RecoverPhases(d);
    RecoverInRange(d);
    assert ps[..2][..1] == ps[..1] && ps[..1][..0] == ps[..0] == [];
  }

  /** A crash anywhere in recovery leaves a medium that recovers to the same home pages. */
  lemma RecoverAtomic(d: Disk, flushed: nat, durable: Disk, pending: seq<Write>, image: Disk)
    requires Sound(d)
    requires Reached(d, RecoverPhases(d), flushed, durable, pending)
    requires Survives(durable, pending, image)
    ensures Sound(image) && SameHome(Logical(image), Logical(d))
    ensures flushed == |RecoverPhases(d)| ==> image == durable && Quiet(image) && SameHome(image, Logical(d))
  {
    var ps := RecoverPhases(d);
    SurvivesIffBetween(durable, pending, image);
    if Redo(d).None? {
      assert image == d;
    } else {
      RecoverBarriers(d);
      if flushed < 2 {
        BetweenPrefix(durable, pending, ps[flushed], image);
      }
      if flushed == 0 {
        CrashWhileRedoing(d, image);
      } else if flushed == 1 {
        CrashWhileClearing(d, image);
      } else {
        assert image == durable;
        RecoverDone(d);
      }
    }
  }

  /** The same of the crash image as a whole. */
  lemma CutRecover(d: Disk, image: Disk)
    requires Sound(d) && CrashImage(d, RecoverPhases(d), image)
    ensures Sound(image) && SameHome(Logical(image), Logical(d))
  {
    var flushed, durable, pending := CrashPoint(d, RecoverPhases(d), image);
    RecoverAtomic(d, flushed, durable, pending, image);
  }
}
