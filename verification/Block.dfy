/** The block device: sectors, the write barrier and what a power cut leaves behind. */
module Block {
  import opened Errors
  import opened Bytes

  const SECTOR := 512

  type Sector = s: seq<u8> | |s| == 512 witness seq(512, _ => 0)
  type Disk = seq<Sector>

  datatype Write = Write(lba: nat, sector: Sector)

  predicate InRange(ws: seq<Write>, sectors: nat) {
    forall i :: 0 <= i < |ws| ==> ws[i].lba < sectors
  }

  /** Some write of `ws` goes to sector `lba`. */
  predicate Hits(ws: seq<Write>, lba: nat) {
    exists i :: 0 <= i < |ws| && ws[i].lba == lba
  }

  /** Sector `lba` is written, and always with the same image. */
  ghost predicate Carries(ws: seq<Write>, lba: nat, image: Sector) {
    Hits(ws, lba) && forall i :: 0 <= i < |ws| && ws[i].lba == lba ==> ws[i].sector == image
  }

  /** The disk after all of `ws`, in order. */
  function ApplyAll(d: Disk, ws: seq<Write>): (r: Disk)
    requires InRange(ws, |d|)
    ensures |r| == |d|
  {
    if ws == [] then d
    else ApplyAll(d, ws[..|ws| - 1])[ws[|ws| - 1].lba := ws[|ws| - 1].sector]
  }

  /** The disk after only those of `ws` that `keep` selects, in order. */
  function Persist(d: Disk, ws: seq<Write>, keep: seq<bool>): (r: Disk)
    requires InRange(ws, |d|) && |keep| == |ws|
    ensures |r| == |d|
  {
    if ws == [] then d
    else
      var p := Persist(d, ws[..|ws| - 1], keep[..|ws| - 1]);
      if keep[|ws| - 1] then p[ws[|ws| - 1].lba := ws[|ws| - 1].sector] else p
  }

  /** The crash contract: a power cut keeps any subset of the unflushed sector writes. */
  ghost predicate Survives(d: Disk, ws: seq<Write>, image: Disk) {
    InRange(ws, |d|) && exists keep: seq<bool> :: |keep| == |ws| && image == Persist(d, ws, keep)
  }

  /** Sector by sector: each is the flushed content or that of some unflushed write. */
  ghost predicate Between(d: Disk, ws: seq<Write>, image: Disk) {
    && |image| == |d|
    && forall s :: 0 <= s < |d| ==> image[s] == d[s] || WroteAt(ws, s, image[s])
  }

  ghost predicate WroteAt(ws: seq<Write>, lba: nat, sector: Sector) {
    exists i :: 0 <= i < |ws| && ws[i] == Write(lba, sector)
  }

  /** The two descriptions of a crash agree. */
  lemma SurvivesIffBetween(d: Disk, ws: seq<Write>, image: Disk)
    requires InRange(ws, |d|)
    ensures Survives(d, ws, image) <==> Between(d, ws, image)
  {
    if Survives(d, ws, image) {
      var keep: seq<bool> :| |keep| == |ws| && image == Persist(d, ws, keep);
      PersistBetween(d, ws, keep);
    }
    if Between(d, ws, image) {
      var keep := ChooseWrites(d, ws, image);
    }
  }

  lemma {:induction false} PersistBetween(d: Disk, ws: seq<Write>, keep: seq<bool>)
    requires InRange(ws, |d|) && |keep| == |ws|
    ensures Between(d, ws, Persist(d, ws, keep))
  {
    if ws != [] {
      var n := |ws| - 1;
      PersistBetween(d, ws[..n], keep[..n]);
      var p, r := Persist(d, ws[..n], keep[..n]), Persist(d, ws, keep);
      forall s | 0 <= s < |d|
        ensures r[s] == d[s] || WroteAt(ws, s, r[s])
      {
        if keep[n] && s == ws[n].lba {
          assert ws[n] == Write(s, r[s]);
        } else if r[s] != d[s] {
          assert WroteAt(ws[..n], s, p[s]);
        }
      }
    }
  }

  /** The subset of writes behind a sector-wise crash image. */
  lemma {:induction false} ChooseWrites(d: Disk, ws: seq<Write>, image: Disk) returns (keep: seq<bool>)
    requires InRange(ws, |d|) && Between(d, ws, image)
    ensures |keep| == |ws| && image == Persist(d, ws, keep)
  {
    if ws == [] {
      keep := [];
    } else {
      var n := |ws| - 1;
      var last := ws[n];
      var kept := image[last.lba] == last.sector;
      var earlier: Disk := if kept then image[last.lba := d[last.lba]] else image;
      forall s | 0 <= s < |d|
        ensures earlier[s] == d[s] || WroteAt(ws[..n], s, earlier[s])
      {
        if earlier[s] != d[s] {
          var i :| 0 <= i < |ws| && ws[i] == Write(s, image[s]);
          assert i < n;
          assert ws[..n][i] == Write(s, earlier[s]);
        }
      }
      var before := ChooseWrites(d, ws[..n], earlier);
      keep := before + [kept];
      assert keep[..n] == before;
    }
  }

  /** Writes that miss a sector leave it alone. */
  lemma {:induction false} ApplyMiss(d: Disk, ws: seq<Write>, s: nat)
    requires InRange(ws, |d|) && s < |d| && !Hits(ws, s)
    ensures ApplyAll(d, ws)[s] == d[s]
  {
    if ws != [] {
      var n := |ws| - 1;
      assert ws[n].lba != s;
      assert forall i :: 0 <= i < n ==> ws[..n][i] == ws[i];
      ApplyMiss(d, ws[..n], s);
    }
  }

  /** When every write to a sector carries the same image, that image is what it ends with. */
  lemma {:induction false} ApplyHit(d: Disk, ws: seq<Write>, s: nat, image: Sector)
    requires InRange(ws, |d|) && s < |d| && Carries(ws, s, image)
    ensures ApplyAll(d, ws)[s] == image
  {
    var n := |ws| - 1;
    if ws[n].lba != s {
      var i :| 0 <= i < |ws| && ws[i].lba == s;
      assert ws[..n][i].lba == s;
      ApplyHit(d, ws[..n], s, image);
    }
  }

  /** A sector that is written, or equal beforehand, is equal afterwards. */
  lemma {:induction false} ApplyAgree(a: Disk, b: Disk, ws: seq<Write>, s: nat)
    requires |a| == |b| && InRange(ws, |a|) && s < |a|
    requires a[s] == b[s] || Hits(ws, s)
    ensures ApplyAll(a, ws)[s] == ApplyAll(b, ws)[s]
  {
    if ws != [] {
      var n := |ws| - 1;
      if ws[n].lba != s {
        if Hits(ws, s) {
          var i :| 0 <= i < |ws| && ws[i].lba == s;
          assert ws[..n][i].lba == s;
        }
        ApplyAgree(a, b, ws[..n], s);
      }
    }
  }

  lemma {:induction false} ApplyConcat(d: Disk, a: seq<Write>, b: seq<Write>)
    requires InRange(a, |d|) && InRange(b, |d|)
    ensures InRange(a + b, |d|)
    ensures ApplyAll(d, a + b) == ApplyAll(ApplyAll(d, a), b)
  {
    if b == [] {
      assert a + b == a;
    } else {
      var n := |b| - 1;
      assert (a + b)[..|a + b| - 1] == a + b[..n];
      ApplyConcat(d, a, b[..n]);
    }
  }

  /** Every crash image of a prefix of the pending writes is one of all of them. */
  lemma BetweenPrefix(d: Disk, some: seq<Write>, all: seq<Write>, image: Disk)
    requires some <= all && Between(d, some, image)
    ensures Between(d, all, image)
  {
    forall s | 0 <= s < |d|
      ensures image[s] == d[s] || WroteAt(all, s, image[s])
    {
      if image[s] != d[s] {
        var i :| 0 <= i < |some| && some[i] == Write(s, image[s]);
        assert all[i] == Write(s, image[s]);
      }
    }
  }

  /** The completed writes are themselves one crash image. */
  lemma ApplyBetween(d: Disk, ws: seq<Write>)
    requires InRange(ws, |d|)
    ensures Between(d, ws, ApplyAll(d, ws))
  {
    forall s | 0 <= s < |d|
      ensures ApplyAll(d, ws)[s] == d[s] || WroteAt(ws, s, ApplyAll(d, ws)[s])
    {
      ApplyLast(d, ws, s);
    }
  }

  lemma {:induction false} ApplyLast(d: Disk, ws: seq<Write>, s: nat)
    requires InRange(ws, |d|) && s < |d|
    ensures ApplyAll(d, ws)[s] == d[s] || WroteAt(ws, s, ApplyAll(d, ws)[s])
  {
    if ws != [] {
      var n := |ws| - 1;
      ApplyLast(d, ws[..n], s);
      if ws[n].lba == s {
        assert ws[n] == Write(s, ws[n].sector);
      } else if ApplyAll(d, ws)[s] != d[s] {
        var i :| 0 <= i < n && ws[..n][i] == Write(s, ApplyAll(d, ws)[s]);
        assert ws[i] == Write(s, ApplyAll(d, ws)[s]);
      }
    }
  }

  // ---- phased protocols -----------------------------------------------------

  /** A protocol is a sequence of write batches, each ended by a flush. */
  type Phases = seq<seq<Write>>

  predicate PhasesInRange(ps: Phases, sectors: nat) {
    forall i :: 0 <= i < |ps| ==> InRange(ps[i], sectors)
  }

  function ApplyPhases(d: Disk, ps: Phases): (r: Disk)
    requires PhasesInRange(ps, |d|)
    ensures |r| == |d|
  {
    if ps == [] then d else ApplyAll(ApplyPhases(d, ps[..|ps| - 1]), ps[|ps| - 1])
  }

  /** The medium and the unflushed writes after `flushed` whole phases and `issued` writes of the next. */
  ghost predicate Reached(start: Disk, ps: Phases, flushed: nat, durable: Disk, pending: seq<Write>) {
    && PhasesInRange(ps, |start|)
    && flushed <= |ps|
    && durable == ApplyPhases(start, ps[..flushed])
    && pending <= if flushed < |ps| then ps[flushed] else []
  }

  /** What a power cut somewhere in the protocol can leave on the medium. */
  ghost predicate CrashImage(start: Disk, ps: Phases, image: Disk) {
    exists flushed: nat, durable: Disk, pending: seq<Write> ::
      Reached(start, ps, flushed, durable, pending) && Survives(durable, pending, image)
  }

  lemma CrashPoint(start: Disk, ps: Phases, image: Disk)
    returns (flushed: nat, durable: Disk, pending: seq<Write>)
    requires CrashImage(start, ps, image)
    ensures Reached(start, ps, flushed, durable, pending) && Survives(durable, pending, image)
  {
    flushed, durable, pending :|
      Reached(start, ps, flushed, durable, pending) && Survives(durable, pending, image);
  }

  // ---- the device -------------------------------------------------------------

  /** The in-memory device, which can lose power after a chosen number of writes. */
  class BlockDevice {
    var data: Disk
    var powered: bool
    var writes: nat
    var cutAfter: Option<nat>
    // What the last barrier made durable, and the writes issued since.
    ghost var durable: Disk
    ghost var pending: seq<Write>

    ghost predicate Valid()
      reads this
    {
      && InRange(pending, |durable|)
      && Between(durable, pending, data)
      && (powered ==> data == ApplyAll(durable, pending))
    }

    /** What a power cut at this moment can leave on the medium: any subset of the unflushed writes. */
    ghost predicate MayLeave(image: Disk)
      reads this
    {
      Survives(durable, pending, image)
    }

    /** The image the device shows is one of those; with nothing unflushed, the only one. */
    lemma LeavesData()
      requires Valid()
      ensures MayLeave(data)
      ensures pending == [] ==> forall image :: MayLeave(image) ==> image == data == durable
    {
      SurvivesIffBetween(durable, pending, data);
      forall image | MayLeave(image)
        ensures pending == [] ==> image == data == durable
      {
        SurvivesIffBetween(durable, pending, image);
        if pending == [] {
          assert image == durable;
          assert data == durable;
        }
      }
    }

    constructor FromSnapshot(image: Disk, cut: Option<nat>)
      ensures Valid() && powered && data == durable == image && pending == []
      ensures cutAfter == cut
    {
      data, durable, pending := image, image, [];
      powered, writes, cutAfter := true, 0, cut;
    }

    method ReadSector(lba: nat) returns (r: Result<Sector>)
      ensures r == if lba < |data| then Success(data[lba]) else Failure(Io)
    {
      if lba >= |data| {
        return Failure(Io);
      }
      return Success(data[lba]);
    }

    /** Without power the write is lost without a word. */
    method WriteSector(lba: nat, sector: Sector) returns (r: Result<Unit>)
      requires Valid()
      modifies this`data, this`powered, this`writes, this`pending
      ensures Valid() && |data| == |old(data)|
      ensures lba >= |data| ==>
        r == Failure(Io) && data == old(data) && pending == old(pending) && powered == old(powered)
      ensures lba < |data| ==> r.Success? && pending == old(pending) + [Write(lba, sector)]
      ensures lba < |data| ==> data == if old(powered) then old(data)[lba := sector] else old(data)
      ensures lba < |data| ==> powered == (old(powered) && cutAfter != Some(old(writes) + 1))
    {
      if lba >= |data| {
        return Failure(Io);
      }
      ghost var was := pending;
      pending := pending + [Write(lba, sector)];
      assert pending[..|was|] == was;
      BetweenPrefix(durable, was, pending, data);
      if !powered {
        return Success(Unit);
      }
      data := data[lba := sector];
      ApplyBetween(durable, pending);
      writes := writes + 1;
      if Some(writes) == cutAfter {
        powered := false;
      }
      return Success(Unit);
    }

    method Flush() returns (r: Result<Unit>)
      requires Valid()
      modifies this`durable, this`pending
      ensures Valid()
      ensures r == if powered then Success(Unit) else Failure(Io)
      ensures powered ==> durable == ApplyAll(old(durable), old(pending)) == data && pending == []
      ensures !powered ==> durable == old(durable) && pending == old(pending)
    {
      if powered {
        durable, pending := data, [];
        return Success(Unit);
      } else {
        return Failure(Io);
      }
    }
  }
}
