/** Whole runs: any interleaving of commits, power cuts and recoveries. */
module JournalRuns {
  import opened Bytes
  import opened Block
  import opened JournalFormat
  import opened JournalProtocol

  /** What happens to a volume. A power cut names the medium it happened to leave. */
  datatype Event =
    | Commit(txid: u64, dirty: seq<PageWrite>)
    | CommitCut(txid: u64, dirty: seq<PageWrite>, image: Disk)
    | PowerOff
    | RecoverCut(image: Disk)
    | Mount

  datatype Volume = Volume(mounted: bool, disk: Disk)

  ghost predicate Coherent(v: Volume) {
    Sound(v.disk) && (v.mounted ==> Quiet(v.disk))
  }

  ghost predicate Enabled(v: Volume, e: Event) {
    match e
    case Commit(_, dirty) => v.mounted && ValidBatch(dirty, |v.disk|)
    case CommitCut(txid, dirty, image) =>
      v.mounted && ValidBatch(dirty, |v.disk|) && CrashImage(v.disk, CommitPhases(txid, dirty), image)
    case PowerOff => v.mounted
    case RecoverCut(image) => !v.mounted && Fits(v.disk) && CrashImage(v.disk, RecoverPhases(v.disk), image)
    case Mount => !v.mounted
  }

  ghost function Next(v: Volume, e: Event): Volume
    requires Coherent(v) && Enabled(v, e)
  {
    match e
    case Commit(txid, dirty) =>
      PhasesInJournal(txid, dirty, |v.disk|);
      Volume(true, ApplyPhases(v.disk, CommitPhases(txid, dirty)))
    case CommitCut(_, _, image) => Volume(false, image)
    case PowerOff => Volume(false, v.disk)
    case RecoverCut(image) => Volume(false, image)
    case Mount =>
      RecoverInRange(v.disk);
      Volume(true, ApplyPhases(v.disk, RecoverPhases(v.disk)))
  }

  /** `es` can happen from `v` and ends in `w`. */
  ghost predicate Runs(v: Volume, es: seq<Event>, w: Volume)
    decreases |es|
  {
    if es == [] then v == w
    else Coherent(v) && Enabled(v, es[0]) && Runs(Next(v, es[0]), es[1..], w)
  }

  /** The home pages such a run should show, given which interrupted commits took effect. */
  ghost function Replay(home: Disk, es: seq<Event>, took: seq<bool>): (r: Disk)
    requires |took| == |es|
    requires HomeEvents(es, |home|)
    ensures |r| == |home|
  {
    if es == [] then home
    else
      var n := |es| - 1;
      var before := Replay(home, es[..n], took[..n]);
      if es[n].Commit? || (es[n].CommitCut? && took[n]) then Install(before, es[n].dirty) else before
  }

  /** A finished protocol is the crash image with nothing left pending. */
  lemma FinishedCommit(d: Disk, txid: u64, dirty: seq<PageWrite>)
    requires Quiet(d) && ValidBatch(dirty, |d|)
    ensures PhasesInRange(CommitPhases(txid, dirty), |d|)
    ensures var r := ApplyPhases(d, CommitPhases(txid, dirty)); Quiet(r) && SameHome(r, Install(d, dirty))
  {
    var ps := CommitPhases(txid, dirty);
    PhasesInJournal(txid, dirty, |d|);
    assert ps[..4] == ps;
    var r := ApplyPhases(d, ps);
    assert Between(r, [], r);
    SurvivesIffBetween(r, [], r);
    CommitAtomic(d, txid, dirty, 4, r, [], r);
  }

  lemma FinishedRecover(d: Disk)
    requires Sound(d)
    ensures PhasesInRange(RecoverPhases(d), |d|)
    ensures var r := ApplyPhases(d, RecoverPhases(d)); Quiet(r) && SameHome(r, Logical(d))
  {
    var ps := RecoverPhases(d);
    RecoverInRange(d);
    assert ps[..|ps|] == ps;
    var r := ApplyPhases(d, ps);
    assert Between(r, [], r);
    SurvivesIffBetween(r, [], r);
    RecoverAtomic(d, |ps|, r, [], r);
  }

  lemma CutCommit(d: Disk, txid: u64, dirty: seq<PageWrite>, image: Disk)
    requires Quiet(d) && ValidBatch(dirty, |d|) && CrashImage(d, CommitPhases(txid, dirty), image)
    ensures Sound(image) && |image| == |d| && Logical(d) == d
    ensures SameHome(Logical(image), d) || SameHome(Logical(image), Install(d, dirty))
  {
    var flushed, durable, pending := CrashPoint(d, CommitPhases(txid, dirty), image);
    QuietLogical(d);
    CommitAtomic(d, txid, dirty, flushed, durable, pending, image);
  }

  /** The effect of every event but a commit: none. */
  lemma QuietStep(v: Volume, e: Event)
    requires Coherent(v) && Enabled(v, e) && !e.Commit? && !e.CommitCut?
    ensures Coherent(Next(v, e)) && SameHome(Logical(Next(v, e).disk), Logical(v.disk))
  {
    match e {
      case PowerOff =>
      case RecoverCut(image) => CutRecover(v.disk, image);
      case Mount => FinishedRecover(v.disk);
    }
  }

  /** One event changes the logical home pages by one whole commit or not at all. */
  lemma StepEffect(v: Volume, e: Event) returns (took: bool)
    requires Coherent(v) && Enabled(v, e)
    ensures Coherent(Next(v, e)) && |Next(v, e).disk| == |v.disk|
    ensures took ==> e.CommitCut?
    ensures SameHome(Logical(Next(v, e).disk), if e.Commit? || took then Install(v.disk, e.dirty) else Logical(v.disk))
  {
    took := false;
    if e.Commit? {
      FinishedCommit(v.disk, e.txid, e.dirty);
    } else if e.CommitCut? {
      CutCommit(v.disk, e.txid, e.dirty, e.image);
      took := SameHome(Logical(e.image), Install(v.disk, e.dirty));
    } else {
      QuietStep(v, e);
    }
  }

  ghost predicate HomeEvents(es: seq<Event>, sectors: nat) {
    forall i :: 0 <= i < |es| && (es[i].Commit? || es[i].CommitCut?) ==> HomeWrites(es[i].dirty, sectors)
  }

  ghost predicate FollowsReplay(v: Volume, es: seq<Event>, took: seq<bool>, w: Volume)
    requires Coherent(v)
  {
    && Coherent(w) && |took| == |es| && HomeEvents(es, |v.disk|)
    && SameHome(Logical(w.disk), Replay(Logical(v.disk), es, took))
  }

  /** The same replay, one event added in front. */
  lemma {:induction false} ReplayStep(home: Disk, es: seq<Event>, took: seq<bool>, next: Disk)
    requires |took| == |es| > 0
    requires HomeEvents(es, |home|)
    requires SameHome(next, if es[0].Commit? || (es[0].CommitCut? && took[0]) then Install(home, es[0].dirty) else home)
    ensures SameHome(Replay(next, es[1..], took[1..]), Replay(home, es, took))
  {
    var n := |es| - 1;
    if n == 0 {
      assert es[..0] == [];
    } else {
      assert es[..n][0] == es[0] && took[..n][0] == took[0];
      ReplayStep(home, es[..n], took[..n], next);
      assert es[1..][..n - 1] == es[..n][1..] && took[1..][..n - 1] == took[..n][1..];
      var a, b := Replay(next, es[..n][1..], took[..n][1..]), Replay(home, es[..n], took[..n]);
      assert es[1..][n - 1] == es[n] && took[1..][n - 1] == took[n];
      if es[n].Commit? || (es[n].CommitCut? && took[n]) {
        InstallSameHome(a, b, es[n].dirty);
      }
    }
  }

  lemma {:induction false} ReplayRun(v: Volume, es: seq<Event>, w: Volume) returns (took: seq<bool>)
    requires Coherent(v) && Runs(v, es, w)
    ensures FollowsReplay(v, es, took, w)
    decreases |es|
  {
    if es == [] {
      took := [];
    } else {
      var next := Next(v, es[0]);
      var first := StepEffect(v, es[0]);
      var rest := ReplayRun(next, es[1..], w);
      took := [first] + rest;
      if v.mounted {
        QuietLogical(v.disk);
      }
      PrependEvent(v, next, es, first, rest, w);
    }
  }

  lemma PrependEvent(v: Volume, next: Volume, es: seq<Event>, first: bool, rest: seq<bool>, w: Volume)
    requires Coherent(v) && Coherent(next) && |next.disk| == |v.disk| && es != []
    requires FollowsReplay(next, es[1..], rest, w)
    requires first ==> es[0].CommitCut?
    requires es[0].Commit? || es[0].CommitCut? ==> HomeWrites(es[0].dirty, |v.disk|)
    requires SameHome(Logical(next.disk),
      if es[0].Commit? || first then Install(Logical(v.disk), es[0].dirty) else Logical(v.disk))
    ensures FollowsReplay(v, es, [first] + rest, w)
  {
    var took := [first] + rest;
    assert took[1..] == rest;
    HomeEventsCons(es, |v.disk|);
    ReplayStep(Logical(v.disk), es, took, Logical(next.disk));
  }

  lemma HomeEventsCons(es: seq<Event>, sectors: nat)
    requires es != [] && HomeEvents(es[1..], sectors)
    requires es[0].Commit? || es[0].CommitCut? ==> HomeWrites(es[0].dirty, sectors)
    ensures HomeEvents(es, sectors)
  {
    forall i | 0 <= i < |es| && (es[i].Commit? || es[i].CommitCut?)
      ensures HomeWrites(es[i].dirty, sectors)
    {
      if i > 0 {
        assert es[i] == es[1..][i - 1];
      }
    }
  }

  /** Durability over whole runs: a volume only ever shows the acknowledged commits, plus some of the
      interrupted ones, each whole and in its place; and once mounted, the home pages on the medium are these. */
  lemma RunsAreDurable(v: Volume, es: seq<Event>, w: Volume)
    requires Coherent(v) && Runs(v, es, w)
    ensures exists took: seq<bool> :: FollowsReplay(v, es, took, w)
    ensures w.mounted ==> Quiet(w.disk) && Logical(w.disk) == w.disk
  {
    var took := ReplayRun(v, es, w);
  }

  /** A mount, after any number of interrupted ones, shows what the first would have shown. */
  lemma {:induction false} MountAfterCuts(v: Volume, es: seq<Event>, w: Volume)
    requires Coherent(v) && Runs(v, es, w)
    requires forall i :: 0 <= i < |es| ==> es[i].RecoverCut? || es[i].Mount?
    ensures Coherent(w) && SameHome(Logical(w.disk), Logical(v.disk))
    decreases |es|
  {
    if es != [] {
      var took := StepEffect(v, es[0]);
      MountAfterCuts(Next(v, es[0]), es[1..], w);
    }
  }
}
