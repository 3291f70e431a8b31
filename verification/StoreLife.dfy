/** The life of a store: operations, power cuts, mounts that complete and mounts that do not. */
module StoreLife {
  import opened Errors
  import opened Block
  import opened JournalProtocol
  import opened Pager
  import opened Relational
  import opened Store
  import opened StoreVolume
  import opened Engine

  // ---- what the contracts say of the medium ---------------------------------------------------------

  /** How an operation leaves the medium: with its result; with the old database or the new one; or untouched. */
  ghost predicate Ended(failed: Option<StoreError>, want: Result<DB>, db: DB, was: Disk, now: Disk) {
    match failed
    case None => want.Success? && Sound(now) && VolumeHolds(Logical(now), want.value)
    case Some(e) =>
      if e == Io && want.Success? then
        Sound(now) && (VolumeHolds(Logical(now), db) || VolumeHolds(Logical(now), want.value))
      else now == was && (want == Failure(e) || (want.Success? && e == OutOfSpace))
  }

  /** The medium of an open store holds the store's database, and a power cut between operations takes
      nothing from it. */
  lemma ValidHolds(s: Store)
    requires s.Valid()
    ensures Sound(s.heap.pager.dev.data) && VolumeHolds(Logical(s.heap.pager.dev.data), s.db)
    ensures forall image :: s.heap.pager.dev.MayLeave(image) <==> image == s.heap.pager.dev.data
  {
    hide Integrity, Bears, DiskView, DecodeSb, Quiet;
    var d, sb := s.heap.pager.dev.data, s.heap.pager.Committed();
    QuietLogical(d);
    ShowsVolume(d, sb, DiskView(d, sb.totalPages), s.base, s.cat, s.db, s.tag);
    s.heap.pager.dev.LeavesData();
  }

  /** Every ending an operation's contract allows is one of these, whichever unflushed writes the medium kept. */
  lemma TriedEnds(s: Store, failed: Option<StoreError>, want: Result<DB>, was: Before, image: Disk)
    requires s.Tried(failed, want, was) && s.heap.pager.dev.MayLeave(image)
    ensures Ended(failed, want, was.db, was.data, image)
    ensures failed.None? ==> want == Success(s.db)
    ensures failed.Some? && !(failed == Some(Io) && want.Success?) ==> s.Valid() && s.db == was.db
  {
    hide Store.Valid, Sound, VolumeHolds;
    if failed == Some(Io) && want.Success? {
      assert HoldsEither(image, was.db, want.value);
    } else {
      ValidHolds(s);
    }
  }

  // ---- runs --------------------------------------------------------------------------------------

  /** An operation with what it returned, the power going between operations, or a mount, complete or not. A cut may
      lose any of the unflushed writes. */
  datatype Happening = Operation(op: Op, failed: Option<StoreError>) | PowerOff | Opening(complete: bool)

  /** A medium, and whether a store is open on it. */
  datatype Medium = Medium(open: bool, disk: Disk)

  /** One happening, as the contracts of the operations and of `Open` describe it. */
  ghost predicate Happens(m: Medium, h: Happening, m': Medium) {
    && Sound(m.disk)
    && match h
       case Operation(op, failed) =>
         && m.open
         && (forall db :: VolumeHolds(Logical(m.disk), db) ==>
               && Admissible(db, op) && Ended(failed, Outcome(db, op), db, m.disk, m'.disk)
               && (m'.open <==> !(failed == Some(Io) && Outcome(db, op).Success?)))
       case PowerOff => m.open && m' == Medium(false, m.disk)
       case Opening(complete) =>
         && !m.open && m'.open == complete && Sound(m'.disk)
         && forall db :: VolumeHolds(Logical(m.disk), db) ==> VolumeHolds(Logical(m'.disk), db)
  }

  /** Whatever an operation's contract allows may happen in a life. After a cut the next mount may find any medium that
      the device can be left with. */
  lemma OperationHappens(s: Store, op: Op, failed: Option<StoreError>, was: Before, image: Disk)
    requires Sound(was.data) && VolumeHolds(Logical(was.data), was.db) && Admissible(was.db, op)
    requires s.Tried(failed, Outcome(was.db, op), was) && s.heap.pager.dev.MayLeave(image)
    ensures var open := !(failed == Some(Io) && Outcome(was.db, op).Success?);
      Happens(Medium(true, was.data), Operation(op, failed), Medium(open, image))
  {
    hide Store.Valid, Ended, Sound, Logical, VolumeIs, Integrity, Outcome, Admissible, BlockDevice.MayLeave;
    TriedEnds(s, failed, Outcome(was.db, op), was, image);
    forall other | VolumeHolds(Logical(was.data), other)
      ensures other == was.db
    {
      OneDatabase(Logical(was.data), other, was.db);
    }
  }

  /** Power going under an open store, between operations. */
  lemma PowerOffHappens(s: Store, image: Disk)
    requires s.Valid() && s.heap.pager.dev.MayLeave(image)
    ensures Happens(Medium(true, s.heap.pager.dev.data), PowerOff, Medium(false, image))
  {
    hide Store.Valid, Sound, Logical, VolumeHolds, BlockDevice.MayLeave;
    ValidHolds(s);
  }

  /** A mount that completes, or is cut off and leaves any of the media it can leave. */
  lemma OpeningHappens(was: Disk, db: DB, complete: bool, image: Disk)
    requires Sound(was) && VolumeHolds(Logical(was), db) && KeepsHolding(image, was, db)
    ensures Happens(Medium(false, was), Opening(complete), Medium(complete, image))
  {
    hide Sound, Logical, VolumeHolds;
    forall other | VolumeHolds(Logical(was), other)
      ensures other == db
    {
      OneDatabase(Logical(was), other, db);
    }
  }

  /** A life that starts with a freshly formatted store. */
  ghost predicate Life(ms: seq<Medium>, hs: seq<Happening>) {
    && |ms| == |hs| + 1 && ms[0].open && Sound(ms[0].disk) && VolumeHolds(Logical(ms[0].disk), [])
    && forall k :: 0 <= k < |hs| ==> Happens(ms[k], hs[k], ms[k + 1])
  }

  /** The operations tried, in order. */
  function Operations(hs: seq<Happening>): (ops: seq<Happening>)
    ensures forall i :: 0 <= i < |ops| ==> ops[i].Operation?
  {
    if hs == [] then []
    else
      var n := |hs| - 1;
      Operations(hs[..n]) + if hs[n].Operation? then [hs[n]] else []
  }

  /** The medium holds this database and no other. */
  ghost predicate HoldsJust(d: Disk, db: DB) {
    Sound(d) && VolumeHolds(Logical(d), db) && forall other :: VolumeHolds(Logical(d), other) ==> other == db
  }

  /** `events` is what became of the operations: one reported as done has taken effect, one refused has not. */
  ghost predicate Accounts(ops: seq<Happening>, dbs: seq<DB>, events: seq<Event>)
    requires forall i :: 0 <= i < |ops| ==> ops[i].Operation?
  {
    && |events| == |ops| && |dbs| == |ops| + 1
    && forall i :: 0 <= i < |ops| ==>
         && events[i].op == ops[i].op && Integrity(dbs[i])
         && (ops[i].failed.None? ==> Outcome(dbs[i], ops[i].op) == Success(dbs[i + 1]))
         && (ops[i].failed.Some? && ops[i].failed != Some(Io) ==> dbs[i + 1] == dbs[i])
  }

  lemma JustOne(d: Disk, db: DB)
    requires Sound(d) && VolumeHolds(Logical(d), db)
    ensures HoldsJust(d, db) && Integrity(db)
  {
    hide Integrity, Sound, Logical, VolumeIs;
    forall other | VolumeHolds(Logical(d), other)
      ensures other == db
    {
      OneDatabase(Logical(d), other, db);
    }
  }

  /** An operation moves the medium's database one engine step. */
  lemma OperationStep(m: Medium, op: Op, failed: Option<StoreError>, m': Medium, db: DB) returns (db': DB, e: Event)
    requires HoldsJust(m.disk, db) && Integrity(db) && Happens(m, Operation(op, failed), m')
    ensures HoldsJust(m'.disk, db') && Integrity(db') && e.op == op && Admissible(db, op) && Step(db, e, db')
    ensures failed.None? ==> Outcome(db, op) == Success(db')
    ensures failed.Some? && failed != Some(Io) ==> db' == db
  {
    hide Integrity, Sound, Logical, VolumeHolds, Outcome, Admissible;
    var want := Outcome(db, op);
    e := if failed == Some(OutOfSpace) || failed == Some(Io) then Stopped(op) else Ran(op);
    db' := if failed.None? || (failed == Some(Io) && want.Success? && !VolumeHolds(Logical(m'.disk), db))
      then want.value else db;
    JustOne(m'.disk, db');
  }

  /** Each medium of the life holds the database reached by the operations before it. */
  ghost predicate AllHold(ms: seq<Medium>, hs: seq<Happening>, dbs: seq<DB>)
    requires |ms| == |hs| + 1
  {
    forall k :: 0 <= k <= |hs| ==> HoldsAt(ms[k], hs[..k], dbs)
  }

  ghost predicate HoldsAt(m: Medium, before: seq<Happening>, dbs: seq<DB>) {
    |Operations(before)| < |dbs| && HoldsJust(m.disk, dbs[|Operations(before)|])
  }

  lemma RunGrows(dbs: seq<DB>, events: seq<Event>, ops: seq<Happening>, h: Happening, db': DB, e: Event)
    requires forall i :: 0 <= i < |ops| ==> ops[i].Operation?
    requires h.Operation? && Run(dbs, events) && Accounts(ops, dbs, events)
    requires var db := dbs[|dbs| - 1];
      && e.op == h.op && Integrity(db) && Admissible(db, e.op) && Step(db, e, db')
      && (h.failed.None? ==> Outcome(db, h.op) == Success(db'))
      && (h.failed.Some? && h.failed != Some(Io) ==> db' == db)
    ensures Run(dbs + [db'], events + [e]) && Accounts(ops + [h], dbs + [db'], events + [e])
  {
    hide Integrity, Step, Admissible, Outcome;
    var dbs', events' := dbs + [db'], events + [e];
    forall k | 0 <= k < |events'|
      ensures Admissible(dbs'[k], events'[k].op) && Step(dbs'[k], events'[k], dbs'[k + 1])
    {
      assert k < |events| ==> dbs'[k] == dbs[k] && dbs'[k + 1] == dbs[k + 1] && events'[k] == events[k];
    }
  }

  lemma HoldsGrows(ms: seq<Medium>, hs: seq<Happening>, dbs: seq<DB>, more: seq<DB>)
    requires |ms| == |hs| + 1 && hs != [] && AllHold(ms[..|hs|], hs[..|hs| - 1], dbs)
    requires HoldsAt(ms[|hs|], hs, dbs + more)
    ensures AllHold(ms, hs, dbs + more)
  {
    hide HoldsJust, Operations;
    var n := |hs| - 1;
    forall k | 0 <= k <= |hs|
      ensures HoldsAt(ms[k], hs[..k], dbs + more)
    {
      if k <= n {
        assert HoldsAt(ms[..n + 1][k], hs[..n][..k], dbs);
        assert hs[..n][..k] == hs[..k];
      } else {
        assert hs[..k] == hs;
      }
    }
  }

  /** Over any life of the store, however operations, power cuts and mounts interleave, every medium holds exactly one
      database. The databases form a run of the engine from the empty store, in which every operation reported as done
      has taken effect and every one refused has not. */
  lemma {:induction false} LifeIsRun(ms: seq<Medium>, hs: seq<Happening>) returns (dbs: seq<DB>, events: seq<Event>)
    requires Life(ms, hs)
    ensures Run(dbs, events) && Accounts(Operations(hs), dbs, events) && AllHold(ms, hs, dbs)
    decreases |hs|
  {
    hide Happens, HoldsJust, Integrity, Step, Admissible, Outcome, Logical, Sound, VolumeHolds, Run, Accounts, AllHold;
    if hs == [] {
      dbs, events := [[]], [];
      JustOne(ms[0].disk, []);
      FirstRun(ms, hs);
    } else {
      var n := |hs| - 1;
      assert ms[..n + 1][0] == ms[0];
      dbs, events := LifeIsRun(ms[..n + 1], hs[..n]);
      var ops := Operations(hs[..n]);
      LastHeld(ms, hs, dbs, events);
      var db := dbs[|dbs| - 1];
      if hs[n].Operation? {
        var db', e := OperationStep(ms[n], hs[n].op, hs[n].failed, ms[n + 1], db);
        RunGrows(dbs, events, ops, hs[n], db', e);
        HoldsGrows(ms, hs, dbs, [db']);
        dbs, events := dbs + [db'], events + [e];
      } else {
        StillHolds(ms[n], hs[n], ms[n + 1], db);
        assert dbs + [] == dbs && ops + [] == ops;
        HoldsGrows(ms, hs, dbs, []);
      }
    }
  }

  lemma FirstRun(ms: seq<Medium>, hs: seq<Happening>)
    requires hs == [] && |ms| == 1 && HoldsJust(ms[0].disk, [])
    ensures Run([[]], []) && Accounts(Operations(hs), [[]], []) && AllHold(ms, hs, [[]])
  {
    hide HoldsJust;
  }

  /** The medium before the last happening holds the last database so far. */
  lemma LastHeld(ms: seq<Medium>, hs: seq<Happening>, dbs: seq<DB>, events: seq<Event>)
    requires |ms| == |hs| + 1 && hs != [] && Run(dbs, events)
    requires Accounts(Operations(hs[..|hs| - 1]), dbs, events) && AllHold(ms[..|hs|], hs[..|hs| - 1], dbs)
    ensures |dbs| == |Operations(hs[..|hs| - 1])| + 1
    ensures HoldsJust(ms[|hs| - 1].disk, dbs[|dbs| - 1]) && Integrity(dbs[|dbs| - 1])
  {
    hide HoldsJust, Integrity, Operations, Step, Admissible, Outcome;
    var n := |hs| - 1;
    assert hs[..n][..n] == hs[..n];
    assert HoldsAt(ms[..n + 1][n], hs[..n][..n], dbs);
    ReachableIntact(dbs, events, |dbs| - 1);
  }

  /** Power going and mounts, complete or cut off, leave the database where it is. */
  lemma StillHolds(m: Medium, h: Happening, m': Medium, db: DB)
    requires HoldsJust(m.disk, db) && Happens(m, h, m') && !h.Operation?
    ensures HoldsJust(m'.disk, db)
  {
    hide Sound, Logical, VolumeHolds;
    if h.Opening? {
      JustOne(m'.disk, db);
    }
  }
}
