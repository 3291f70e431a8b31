/** A medium determines the database it holds, and every ending of an operation is a step of the engine. */
module StoreVolume {
  import opened Errors
  import opened Bytes
  import opened Bignum
  import opened Codec
  import opened Schema
  import opened Block
  import opened JournalFormat
  import opened JournalProtocol
  import opened Pager
  import opened ChainModel
  import opened ChainStore
  import opened Relational
  import opened StoreModel
  import opened StoreSteps
  import opened Store
  import opened Engine

  lemma {:induction false} OneChain(v: View, head: u64, ps: seq<u64>, qs: seq<u64>)
    requires Linked(v, head, ps) && Linked(v, head, qs)
    ensures ps == qs
    decreases |ps|
  {
    if ps != [] && qs != [] {
      OneChain(v, NextOf(v[head]), ps[1..], qs[1..]);
      assert ps == [ps[0]] + ps[1..] && qs == [qs[0]] + qs[1..];
    }
  }

  /** However the pages are accounted for, a chain holds the same bytes and an index the same slots. */
  lemma SameContents(v: View, sb: Superblock, a: Layout, b: Layout, h: u64)
    requires Owned(v, sb, a) && Owned(v, sb, b)
    ensures h in a.blobs && h in b.blobs ==> a.blobs[h] == b.blobs[h]
    ensures h in a.indexes && h in b.indexes ==> a.indexes[h] == b.indexes[h]
  {
    hide Partition, NextOf, LenOf, BlobOf, IndexOf, PayloadOf;
    if (h in a.blobs && h in b.blobs) || (h in a.indexes && h in b.indexes) {
      assert ChainHolds(v, a, h) && ChainHolds(v, b, h);
      OneChain(v, h, a.pages[h], b.pages[h]);
    }
  }

  lemma SameCatalog(v: View, sb: Superblock, a: Layout, b: Layout, cat: seq<CatEntry>, db: DB, tag: map<u64, Text>,
                    cat': seq<CatEntry>, db': DB, tag': map<u64, Text>)
    requires Bears(v, sb, a, cat, db, tag) && Bears(v, sb, b, cat', db', tag')
    ensures cat == cat'
  {
    hide Owned, Body, EncodeCat, DecodeCat, EncodableCat;
    if sb.catalogHead != 0 {
      SameContents(v, sb, a, b, sb.catalogHead);
      CatRoundTrip(cat);
      CatRoundTrip(cat');
    }
  }

  lemma SameTable(v: View, sb: Superblock, a: Layout, b: Layout, cat: seq<CatEntry>, db: DB, tag: map<u64, Text>,
                  db': DB, tag': map<u64, Text>, i: nat)
    requires Bears(v, sb, a, cat, db, tag) && Bears(v, sb, b, cat, db', tag') && i < |cat|
    ensures |db| == |cat| == |db'| && db[i] == db'[i]
  {
    hide Owned, Body, EncodeCat, EncodableCat, EncodeTable, EncodableTable, DecodeTable, RowsHold, Entries;
    var c := sb.catalogHead;
    BodyTable(a.blobs - {c}, a.indexes, cat, db, tag, i);
    BodyTable(b.blobs - {c}, b.indexes, cat, db', tag', i);
    SameContents(v, sb, a, b, cat[i].schemaHead);
    SameContents(v, sb, a, b, cat[i].dataHead);
    TableRoundTrip(db[i].schema);
    TableRoundTrip(db'[i].schema);
    var es := Entries(a.indexes[cat[i].dataHead]);
    RowsLength(a.blobs - {c}, es, db[i].rows);
    RowsLength(b.blobs - {c}, es, db'[i].rows);
    forall k | 0 <= k < |es|
      ensures db[i].rows[k] == db'[i].rows[k]
    {
      RowBytes(a.blobs - {c}, es, db[i].rows, k);
      RowBytes(b.blobs - {c}, es, db'[i].rows, k);
      SameContents(v, sb, a, b, es[k].1);
    }
    assert db[i].rows == db'[i].rows;
  }

  /** No medium holds two databases: what a mount finds after a crash is one of the two and not a reading of it. */
  lemma OneDatabase(d: Disk, db: DB, db': DB)
    requires VolumeHolds(d, db) && VolumeHolds(d, db')
    ensures db == db'
  {
    hide Integrity, Bears, DecodeSb, DiskView, DiskPage;
    var sb, a, cat, tag :| VolumeIs(d, db, sb, a, cat, tag);
    var sb', b, cat', tag' :| VolumeIs(d, db', sb', b, cat', tag');
    var v := DiskView(d, sb.totalPages);
    SameCatalog(v, sb, a, b, cat, db, tag, cat', db', tag');
    TableCount(v, sb, a, cat, db, tag);
    TableCount(v, sb, b, cat, db', tag');
    forall i | 0 <= i < |cat|
      ensures db[i] == db'[i]
    {
      SameTable(v, sb, a, b, cat, db, tag, db', tag', i);
    }
  }

  lemma TableCount(v: View, sb: Superblock, a: Layout, cat: seq<CatEntry>, db: DB, tag: map<u64, Text>)
    requires Bears(v, sb, a, cat, db, tag)
    ensures |db| == |cat|
  {
    hide Owned, TableHolds;
  }

  // ---- operations as steps of the engine ------------------------------------------------------------

  /** An operation that returns without a device error is a step of the engine, and leaves a store to go on with. */
  lemma ReturnIsStep(s: Store, failed: Option<StoreError>, op: Op, was: Before)
    requires Integrity(was.db) && Admissible(was.db, op) && failed != Some(Io)
    requires s.Tried(failed, Outcome(was.db, op), was)
    ensures s.Valid() && exists e: Event :: e.op == op && Step(was.db, e, s.db)
    ensures failed.None? ==> Step(was.db, Ran(op), s.db)
  {
    hide Integrity, Outcome, Store.Valid, Admissible;
    var e := if failed == Some(OutOfSpace) then Stopped(op) else Ran(op);
    assert e.op == op && Step(was.db, e, s.db);
  }

  /** After a device error every medium the cut can leave holds exactly one database, and that one is a step of the
      engine away: so is what the next mount opens. */
  lemma CutIsStep(s: Store, op: Op, was: Before, image: Disk) returns (db: DB)
    requires Integrity(was.db) && Admissible(was.db, op) && s.Tried(Some(Io), Outcome(was.db, op), was)
    requires Outcome(was.db, op).Success? && s.heap.pager.dev.MayLeave(image)
    ensures VolumeHolds(Logical(image), db) && forall other :: VolumeHolds(Logical(image), other) ==> other == db
    ensures Step(was.db, Stopped(op), db)
  {
    hide Integrity, Outcome, Store.Valid, Admissible, VolumeHolds, Logical;
    var d := Logical(image);
    assert HoldsEither(image, was.db, Outcome(was.db, op).value);
    db := if VolumeHolds(d, was.db) then was.db else Outcome(was.db, op).value;
    forall other | VolumeHolds(d, other)
      ensures other == db
    {
      OneDatabase(d, other, db);
    }
  }
}
