/** The store: every operation is one transaction over the chains. */
module Store {
  import opened Errors
  import opened Bytes
  import opened Bignum
  import opened Value
  import opened Codec
  import opened Schema
  import opened Block
  import opened JournalFormat
  import opened JournalProtocol
  import Journal
  import opened Pager
  import opened ChainModel
  import opened Chains
  import opened ChainStore
  import opened Relational
  import opened RowIntegrity
  import opened SchemaEdits
  import opened StoreModel
  import opened StoreSteps

  // ---- volumes ------------------------------------------------------------------------------

  /** These pages, laid out so, are this database: every page has one owner, none is in hand. */
  ghost predicate Bears(v: View, sb: Superblock, l: Layout, cat: seq<CatEntry>, db: DB, tag: map<u64, Text>) {
    Owned(v, sb, l) && l.pages[LOOSE] == [] && Holds(l, sb.catalogHead, cat, db, tag)
  }

  ghost predicate VolumeIs(d: Disk, db: DB, sb: Superblock, l: Layout, cat: seq<CatEntry>, tag: map<u64, Text>) {
    IsVolume(d, sb) && Bears(DiskView(d, sb.totalPages), sb, l, cat, db, tag)
  }

  /** The medium's home pages are a store with this database. */
  ghost predicate VolumeHolds(d: Disk, db: DB) {
    Integrity(db) && exists sb, l, cat, tag :: VolumeIs(d, db, sb, l, cat, tag)
  }

  lemma ShowsVolume(d: Disk, sb: Superblock, v: View, l: Layout, cat: seq<CatEntry>, db: DB, tag: map<u64, Text>)
    requires Shows(d, sb, v) && Bears(v, sb, l, cat, db, tag) && Integrity(db)
    ensures VolumeHolds(d, db)
  {
    hide IsVolume, Bears, DiskView, Integrity;
    assert VolumeIs(d, db, sb, l, cat, tag);
  }

  /** Media with the same home pages hold the same database. */
  lemma SameHomeVolume(a: Disk, b: Disk, db: DB)
    requires SameHome(a, b) && VolumeHolds(b, db)
    ensures VolumeHolds(a, db)
  {
    hide IsVolume, Bears, DiskView, Integrity, SameHome, DecodeSb;
    var sb, l, cat, tag :| VolumeIs(b, db, sb, l, cat, tag);
    ShownBy(b, sb);
    SameHomeShows(a, b, sb, DiskView(b, sb.totalPages));
    ShowsVolume(a, sb, DiskView(b, sb.totalPages), l, cat, db, tag);
  }

  /** A sound medium that holds the database if the one before did. */
  ghost predicate KeepsHolding(d: Disk, was: Disk, db: DB)
    requires Sound(was)
  {
    Sound(d) && (VolumeHolds(Logical(was), db) ==> VolumeHolds(Logical(d), db))
  }

  lemma ShownBy(d: Disk, sb: Superblock)
    requires IsVolume(d, sb)
    ensures sb.totalPages * 8 <= |d| && Shows(d, sb, DiskView(d, sb.totalPages))
  {
    hide DecodeSb, DiskView;
  }

  /** A medium that recovers to one of these databases. */
  ghost predicate HoldsEither(d: Disk, a: DB, b: DB) {
    Sound(d) && (VolumeHolds(Logical(d), a) || VolumeHolds(Logical(d), b))
  }

  /** So does every medium a power cut at this moment can leave. */
  ghost predicate CutsToEither(dev: BlockDevice, a: DB, b: DB)
    reads dev
  {
    dev.Valid() && forall image :: dev.MayLeave(image) ==> HoldsEither(image, a, b)
  }

  /** A medium that recovers to one of two sets of pages recovers to one of the databases they are. */
  lemma CutHolds(dev: BlockDevice,
                 sb: Superblock, v: View, l: Layout, cat: seq<CatEntry>, db: DB, tag: map<u64, Text>,
                 sb': Superblock, v': View, l': Layout, cat': seq<CatEntry>, db': DB, tag': map<u64, Text>)
    requires CutsRecoverToEither(dev, sb, v, sb', v')
    requires Bears(v, sb, l, cat, db, tag) && Integrity(db)
    requires Bears(v', sb', l', cat', db', tag') && Integrity(db')
    ensures CutsToEither(dev, db, db')
  {
    hide Shows, Bears, Integrity, Sound, Logical, VolumeHolds;
    forall image | dev.MayLeave(image)
      ensures HoldsEither(image, db, db')
    {
      assert RecoversToEither(image, sb, v, sb', v');
      if Shows(Logical(image), sb, v) {
        ShowsVolume(Logical(image), sb, v, l, cat, db, tag);
      } else {
        ShowsVolume(Logical(image), sb', v', l', cat', db', tag');
      }
    }
  }

  lemma BearsIgnoresGeneration(v: View, a: Superblock, b: Superblock, l: Layout, cat: seq<CatEntry>, db: DB,
                               tag: map<u64, Text>)
    requires Bears(v, a, l, cat, db, tag) && b == a.(generation := b.generation)
    ensures Bears(v, b, l, cat, db, tag)
  {
    hide Owned, Holds;
    OwnedIgnores(v, a, b, l);
  }

  /** The state an operation starts from. */
  datatype Before = Before(db: DB, data: Disk, sb: Superblock)

  function Failed<T>(r: Result<T>): Option<StoreError> {
    if r.Success? then None else Some(r.error)
  }

  /** Nothing staged: the pages are those of the medium. */
  lemma CleanView(pager: Pager)
    requires pager.Valid() && pager.dirty == map[]
    ensures pager.sb.totalPages * 8 <= |pager.dev.data|
    ensures pager.Contents() == DiskView(pager.dev.data, pager.sb.totalPages)
  {
  }

  ghost function EmptyLayout(): Layout {
    Layout(map[], map[FREE := [], LOOSE := []], map[], map[])
  }

  lemma EmptyOwned(v: View, sb: Superblock, l: Layout)
    requires l == EmptyLayout() && sb.hwm == FIRST_DATA_PAGE <= sb.totalPages && sb.freeHead == 0
    requires forall p: u64 :: p in v <==> DataPage(p, sb.totalPages)
    ensures Owned(v, sb, l)
  {
  }

  lemma EmptyHolds(l: Layout)
    requires l == EmptyLayout()
    ensures Holds(l, 0, [], [], map[]) && Integrity([])
  {
  }

  /** How a volume holds a database, when it does. */
  lemma Witness(d: Disk, db: DB, sb: Superblock) returns (l: Layout, cat: seq<CatEntry>, tag: map<u64, Text>)
    ensures VolumeHolds(d, db) ==> |d| >= 8 && Integrity(db)
    ensures VolumeHolds(d, db) && DecodeSb(DiskPage(d, 0)) == Success(sb) ==> VolumeIs(d, db, sb, l, cat, tag)
  {
    hide Bears, DiskView, Integrity, DecodeSb;
    l, cat, tag := EmptyLayout(), [], map[];
    if VolumeHolds(d, db) {
      var sb0, l0, cat0, tag0 :| VolumeIs(d, db, sb0, l0, cat0, tag0);
      l, cat, tag := l0, cat0, tag0;
    }
  }

  lemma MountFails(d: Disk, db: DB)
    ensures VolumeHolds(d, db) ==> DecodeSb(DiskPage(d, 0)).Success?
  {
    hide Bears, DiskView, Integrity, DecodeSb;
  }

  class Store {
    const heap: ChainHeap
    /** The committed database, and how the committed pages hold it. */
    ghost var db: DB
    ghost var base: Layout
    ghost var cat: seq<CatEntry>
    ghost var tag: map<u64, Text>

    /** What the medium holds. */
    ghost predicate Anchored()
      reads this, heap.pager.dev`data
    {
      var sb := heap.pager.Committed();
      && Integrity(db) && sb.totalPages * 8 <= |heap.pager.dev.data|
      && Bears(DiskView(heap.pager.dev.data, sb.totalPages), sb, base, cat, db, tag)
    }

    lemma KeptIntegrity()
      requires Anchored()
      ensures Integrity(db)
    {
    }

    /** No transaction in progress. */
    ghost predicate Valid()
      reads this, heap, heap.pager, heap.pager.dev
    {
      && heap.Valid() && heap.layout == base && Anchored()
      && heap.pager.dirty == map[] && heap.pager.sb == heap.pager.Committed()
    }

    /** The pages in the buffer are this database, and await a commit. */
    ghost predicate Staged(cat1: seq<CatEntry>, db1: DB, tag1: map<u64, Text>)
      reads heap, heap.pager, heap.pager.dev
    {
      heap.Valid() && Holds(heap.layout, heap.pager.sb.catalogHead, cat1, db1, tag1) && heap.pager.dirty != map[]
    }

    /** The tables in the buffer, whatever the catalog blob still says. */
    ghost predicate On(cat1: seq<CatEntry>, db1: DB, tag1: map<u64, Text>)
      reads heap, heap.pager, heap.pager.dev
    {
      var c := heap.pager.sb.catalogHead;
      && heap.Valid() && (c != 0 ==> c in heap.layout.blobs)
      && Body(heap.layout.blobs - {c}, heap.layout.indexes, cat1, db1, tag1)
    }

    constructor (heap: ChainHeap, ghost db: DB, ghost cat: seq<CatEntry>, ghost tag: map<u64, Text>)
      ensures this.heap == heap && this.db == db && this.base == heap.layout && this.cat == cat && this.tag == tag
    {
      this.heap, this.db, this.base, this.cat, this.tag := heap, db, heap.layout, cat, tag;
    }

    // ---- outcomes of a transaction ------------------------------------------------------------

    /** How a transaction may end, where `want` is what it does to the database: done and durable; refused, or out of
        room, with nothing changed in memory or on the medium; or cut off, with every medium the cut can leave holding
        the old database or the new one. */
    ghost predicate Tried(failed: Option<StoreError>, want: Result<DB>, was: Before)
      reads this, heap, heap.pager, heap.pager.dev
    {
      match failed
      case None => Valid() && want == Success(db) && heap.pager.sb.generation == was.sb.generation + 1
      case Some(e) =>
        if e == Io && want.Success? then
          !heap.pager.dev.powered && CutsToEither(heap.pager.dev, was.db, want.value)
        else
          && Valid() && Now() == was
          && (want == Failure(e) || (want.Success? && e == OutOfSpace))
    }

    /** The database, the medium and the superblock. */
    ghost function Now(): Before
      reads this, heap.pager, heap.pager.dev
    {
      Before(db, heap.pager.dev.data, heap.pager.sb)
    }

    /** Discard the transaction: the allocator and every page read as before it. */
    method Abort()
      requires heap.pager.Valid() && Anchored()
      modifies heap, heap.pager`sb, heap.pager`dirty
      ensures Valid()
    {
      hide Owned, Holds, Integrity, DiskView, DecodeSb;
      var done := heap.pager.Rollback();
      heap.layout := base;
    }

    /** Commit the transaction, or leave no trace of it. */
    method Finish(ghost cat1: seq<CatEntry>, ghost db1: DB, ghost tag1: map<u64, Text>) returns (r: Result<Unit>)
      requires Staged(cat1, db1, tag1) && Anchored() && Integrity(db1)
      requires heap.pager.sb.generation + 1 < 0x1_0000_0000_0000_0000
      modifies this, heap, heap.pager, heap.pager.dev
      ensures r.Success? ==>
        Valid() && db == db1 && heap.pager.sb.generation == old(heap.pager.sb.generation) + 1
      ensures r.Failure? ==> r.error == OutOfSpace || r.error == Io
      ensures r == Failure(OutOfSpace) ==>
        && Valid() && db == old(db) && heap.pager.dev.data == old(heap.pager.dev.data)
        && |old(heap.pager.dirty)| + 1 > JCAP
      ensures r == Failure(Io) ==> !heap.pager.dev.powered && CutsToEither(heap.pager.dev, old(db), db1)
    {
      hide Owned, Holds, Integrity, DiskView, DecodeSb, IsVolume, Shows, Quiet, Journal.Settled, DiskPage, CutsToEither,
        CutsRecoverToEither;
      ghost var v, sb := heap.pager.Contents(), heap.pager.sb;
      ghost var next := sb.(generation := sb.generation + 1);
      ghost var was := heap.pager.Committed();
      ghost var oldView := DiskView(heap.pager.dev.data, sb.totalPages);
      BearsIgnoresGeneration(v, sb, next, heap.layout, cat1, db1, tag1);
      r := heap.pager.Commit();
      if r.Success? {
        db, cat, tag, base := db1, cat1, tag1, heap.layout;
        CleanView(heap.pager);
      } else if r.error == OutOfSpace {
        Abort();
      } else {
        // After a device error the session is over; the rollback that follows in memory is of no consequence.
        CutHolds(heap.pager.dev, was, oldView, base, cat, db, tag, next, v, heap.layout, cat1, db1, tag1);
      }
    }

    // ---- opening --------------------------------------------------------------------------------

    /** A fresh store has no tables. */
    static method Format(dev: BlockDevice) returns (r: Result<Store>)
      requires Journal.Settled(dev) && |dev.data| < 0x1_0000_0000_0000_0000
      modifies dev
      ensures r.Success? ==>
        && fresh(r.value) && fresh(r.value.heap) && fresh(r.value.heap.pager) && r.value.heap.pager.dev == dev
        && r.value.Valid() && r.value.db == [] && r.value.heap.pager.sb.generation == 1
      ensures |old(dev.data)| / 8 <= FIRST_DATA_PAGE + 1 ==> r == Failure(OutOfSpace) && dev.data == old(dev.data)
      ensures r.Failure? ==> r.error == OutOfSpace || r.error == Io
    {
      hide DecodeSb, EncodeSb, IsVolume, DiskView, NextOf, Pager.Committed, Store.Valid, Integrity, Shows, Quiet,
        Journal.Settled;
      var pager := Pager.Format(dev);
      if pager.Failure? { return Failure(pager.error); }
      ghost var l := EmptyLayout();
      CleanView(pager.value);
      EmptyOwned(pager.value.Contents(), pager.value.sb, l);
      EmptyHolds(l);
      var store := Assemble(pager.value, l, [], [], map[]);
      return Success(store);
    }

    /** A store over a clean pager. */
    static method Assemble(pager: Pager, ghost l: Layout, ghost db0: DB, ghost cat0: seq<CatEntry>,
                           ghost tag0: map<u64, Text>)
      returns (s: Store)
      ensures fresh(s) && fresh(s.heap) && s.heap.pager == pager
      ensures
        && pager.Valid() && pager.dirty == map[] && pager.Committed() == pager.sb && Integrity(db0)
        && Bears(pager.Contents(), pager.sb, l, cat0, db0, tag0)
        ==> s.Valid() && s.db == db0
    {
      hide DecodeSb, DiskView, Owned, Holds, Integrity, Pager.Valid, Pager.Contents;
      var heap := new ChainHeap(pager, l);
      s := new Store(heap, db0, cat0, tag0);
      if pager.Valid() && pager.dirty == map[] {
        CleanView(pager);
      }
    }

    /** Mount a volume. One that holds a database opens to exactly that database; nothing is ever formatted. Every
        medium a mount can leave, cut off or not, still holds it. */
    static method Open(dev: BlockDevice, ghost db0: DB) returns (r: Result<Store>)
      requires Journal.Settled(dev) && Sound(dev.data)
      modifies dev
      ensures VolumeHolds(Logical(old(dev.data)), db0) && r.Success? ==>
        && fresh(r.value) && fresh(r.value.heap) && fresh(r.value.heap.pager) && r.value.heap.pager.dev == dev
        && r.value.Valid() && r.value.db == db0
      ensures VolumeHolds(Logical(old(dev.data)), db0) && r.Failure? ==> r.error == Io && !dev.powered
      ensures DecodeSb(DiskPage(Logical(old(dev.data)), 0)).Failure? ==>
        r == Failure(Corrupt("uninitialised")) || (r == Failure(Io) && !dev.powered)
      ensures dev.Valid() && (dev.powered ==> old(dev.powered))
      ensures forall image :: dev.MayLeave(image) ==> KeepsHolding(image, old(dev.data), db0)
      ensures KeepsHolding(dev.data, old(dev.data), db0)
    {
      hide DecodeSb, EncodeSb, DiskView, Owned, Holds, Integrity, DiskPage, Logical, Sound, Bears, Pager.Valid,
        Pager.Committed, Store.Valid, VolumeHolds, Quiet, IsVolume;
      ghost var home := Logical(dev.data);
      var pager := Pager.Mount(dev);
      MountFails(home, db0);
      ghost var was := old(dev.data);
      dev.LeavesData();
      forall image | dev.MayLeave(image)
        ensures KeepsHolding(image, was, db0)
      {
        if VolumeHolds(home, db0) {
          SameHomeVolume(Logical(image), home, db0);
        }
      }
      if pager.Failure? {
        if pager.error.Corrupt? {
          return Failure(Corrupt("uninitialised"));
        }
        return Failure(Io);
      }
      ghost var l, cat, tag := Witness(home, db0, pager.value.sb);
      var store := Assemble(pager.value, l, db0, cat, tag);
      return Success(store);
    }

    // ---- reading ---------------------------------------------------------------------------------

    /** The catalog the superblock names. */
    method LoadCatalog(ghost cat1: seq<CatEntry>, ghost db1: DB, ghost tag1: map<u64, Text>)
      returns (r: Result<seq<CatEntry>>)
      requires heap.Valid() && Holds(heap.layout, heap.pager.sb.catalogHead, cat1, db1, tag1)
      modifies heap.pager`cache
      ensures heap.Valid() && On(cat1, db1, tag1) && r == Success(cat1)
    {
      hide ChainHeap.Valid, Body, DecodeCat, EncodeCat;
      var head := heap.pager.sb.catalogHead;
      if head == 0 {
        return Success([]);
      }
      var bytes := heap.ReadChain(head);
      CatRoundTrip(cat1);
      return DecodeCat(bytes.value);
    }

    method SchemaOf(e: CatEntry, ghost cat1: seq<CatEntry>, ghost db1: DB, ghost tag1: map<u64, Text>, ghost i: nat)
      returns (r: Result<Table>)
      requires On(cat1, db1, tag1) && i < |cat1| && |db1| == |cat1| && e == cat1[i]
      modifies heap.pager`cache
      ensures On(cat1, db1, tag1) && r == Success(db1[i].schema)
    {
      hide ChainHeap.Valid, Body, DecodeTable, EncodeTable, EncodableTable, RowsHold;
      BodyTable(heap.layout.blobs - {heap.pager.sb.catalogHead}, heap.layout.indexes, cat1, db1, tag1, i);
      SchemaInLayout(e.schemaHead);
      var bytes := heap.ReadChain(e.schemaHead);
      TableRoundTrip(db1[i].schema);
      return DecodeTable(bytes.value);
    }

    lemma SchemaInLayout(h: u64)
      requires heap.Valid() && h in heap.layout.blobs - {heap.pager.sb.catalogHead}
      ensures h in heap.layout.blobs && h != 0
    {
      HeadsApart(heap.pager.Contents(), heap.pager.sb, heap.layout);
    }

    /** A table's live rows, in index order. */
    method RowsOf(e: CatEntry, ghost cat1: seq<CatEntry>, ghost db1: DB, ghost tag1: map<u64, Text>, ghost i: nat)
      returns (r: Result<Rows>)
      requires On(cat1, db1, tag1) && i < |cat1| && |db1| == |cat1| && e == cat1[i]
      modifies heap.pager`cache
      ensures On(cat1, db1, tag1) && r == Success(db1[i].rows)
    {
      hide ChainHeap.Valid, Body, DecodeRow, EncodeRow, EncodableTable, StorableRow, Entries, EncodeTable;
      ghost var blobs := heap.layout.blobs - {heap.pager.sb.catalogHead};
      BodyTable(blobs, heap.layout.indexes, cat1, db1, tag1, i);
      var entries := heap.IndexCollect(e.dataHead);
      RowsLength(blobs, entries.value, db1[i].rows);
      var out: Rows := [];
      for k := 0 to |entries.value|
        invariant On(cat1, db1, tag1) && heap.layout == old(heap.layout)
        invariant out == db1[i].rows[..k]
      {
        RowBytes(blobs, entries.value, db1[i].rows, k);
        SchemaInLayout(entries.value[k].1);
        var bytes := heap.ReadChain(entries.value[k].1);
        var cells := DecodeRow(bytes.value);
        out := out + [(entries.value[k].0, cells.value)];
      }
      assert db1[i].rows[..|entries.value|] == db1[i].rows;
      return Success(out);
    }

    /** The catalog, outside a transaction. */
    method Catalog() returns (r: seq<CatEntry>)
      requires Valid()
      modifies heap.pager`cache
      ensures Valid() && Now() == old(Now()) && On(cat, db, tag) && r == cat && |cat| == |db|
    {
      hide Body, Pager.Valid, Owned, Integrity, DiskView, EncodeCat;
      var c := LoadCatalog(cat, db, tag);
      BodyLength(heap.layout.blobs - {heap.pager.sb.catalogHead}, heap.layout.indexes, cat, db, tag);
      return c.value;
    }

    /** The catalog, the table's place in it and its schema. */
    method Locate(table: Text) returns (r: Result<(seq<CatEntry>, nat, Table)>)
      requires Valid()
      modifies heap.pager`cache
      ensures Valid() && Now() == old(Now())
      ensures FindTable(db, table).None? ==> r == Failure(NotFound("table"))
      ensures FindTable(db, table).Some? ==>
        && r == Success((cat, FindTable(db, table).value, db[FindTable(db, table).value].schema))
        && On(cat, db, tag) && |cat| == |db| && r.value.1 < |cat|
        && cat[r.value.1].rowCount == |db[r.value.1].rows|
    {
      hide Body, Pager.Valid, Owned, FindTable, CatIndex, Integrity, DiskView, EncodeCat, EncodeTable;
      var c := LoadCatalog(cat, db, tag);
      BodyIndex(heap.layout.blobs - {heap.pager.sb.catalogHead}, heap.layout.indexes, cat, db, tag, table);
      var i := CatIndex(c.value, table);
      if i.None? { return Failure(NotFound("table")); }
      BodyTable(heap.layout.blobs - {heap.pager.sb.catalogHead}, heap.layout.indexes, cat, db, tag, i.value);
      var t := SchemaOf(c.value[i.value], cat, db, tag, i.value);
      return Success((c.value, i.value, t.value));
    }

    // ---- validation ------------------------------------------------------------------------------

    /** Types and NOT NULL, column by column. */
    static method CellsLoop(t: Table, cells: Row) returns (r: Result<()>)
      requires |cells| == |t.columns|
      ensures r == CheckCells(t.columns, cells, 0)
    {
      for k := 0 to |t.columns|
        invariant CheckCells(t.columns, cells, 0) == CheckCells(t.columns, cells, k)
      {
        if cells[k].None? {
          if !t.columns[k].nullable { return Failure(NullViolation(t.columns[k].name)); }
        } else if cells[k].value.TypeOf() != t.columns[k].ty {
          return Failure(Parse("column type"));
        }
      }
      return Success(());
    }

    /** UNIQUE among non-NULL values; the row being updated does not count. */
    method UniqueLoop(e: CatEntry, t: Table, cells: Row, exclude: Option<RowId>,
                      ghost cat1: seq<CatEntry>, ghost db1: DB, ghost tag1: map<u64, Text>, ghost i: nat)
      returns (r: Result<()>)
      requires On(cat1, db1, tag1) && i < |cat1| && |db1| == |cat1| && e == cat1[i] && |cells| == |t.columns|
      modifies heap.pager`cache
      ensures On(cat1, db1, tag1) && r == CheckUnique(t.columns, db1[i].rows, cells, exclude, 0)
    {
      hide ChainHeap.Valid, Body, HasValue;
      for k := 0 to |t.columns|
        invariant On(cat1, db1, tag1)
        invariant CheckUnique(t.columns, db1[i].rows, cells, exclude, 0) ==
          CheckUnique(t.columns, db1[i].rows, cells, exclude, k)
      {
        if t.columns[k].unique && cells[k].Some? {
          var rows := RowsOf(e, cat1, db1, tag1, i);
          if HasValue(rows.value, k, cells[k].value, exclude) {
            return Failure(UniqueViolation(t.columns[k].name));
          }
        }
      }
      return Success(());
    }

    /** Every reference finds its row; in its own table the pending cells stand in for the row being updated. */
    method FksLoop(cat1: seq<CatEntry>, ti: nat, t: Table, cells: Row, exclude: Option<RowId>,
                   ghost db1: DB, ghost tag1: map<u64, Text>) returns (r: Result<()>)
      requires On(cat1, db1, tag1) && ti < |cat1| && |db1| == |cat1| && t == db1[ti].schema && |cells| == |t.columns|
      modifies heap.pager`cache
      ensures On(cat1, db1, tag1) && r == CheckFks(db1, ti, cells, exclude, 0)
    {
      hide ChainHeap.Valid, Body, HasTarget, FindTable, CatIndex, ColumnIndex;
      for k := 0 to |t.fks|
        invariant On(cat1, db1, tag1)
        invariant CheckFks(db1, ti, cells, exclude, 0) == CheckFks(db1, ti, cells, exclude, k)
      {
        var fk := t.fks[k];
        var fi := ColumnIndex(t.columns, fk.fromCol);
        if fi.None? { return Failure(Corrupt("fk source column")); }
        if cells[fi.value].Some? {
          BodyIndex(heap.layout.blobs - {heap.pager.sb.catalogHead}, heap.layout.indexes, cat1, db1, tag1, fk.toTable);
          var tj := CatIndex(cat1, fk.toTable);
          if tj.None? { return Failure(NotFound("table")); }
          var tt := SchemaOf(cat1[tj.value], cat1, db1, tag1, tj.value);
          var tcol := ColumnIndex(tt.value.columns, fk.toCol);
          if tcol.None? { return Failure(Corrupt("fk target column")); }
          var rows := RowsOf(cat1[tj.value], cat1, db1, tag1, tj.value);
          if !HasTarget(rows.value, tcol.value, cells[fi.value].value,
                        if tj.value == ti then exclude else None, cells) {
            return Failure(ForeignKeyViolation(fk.name));
          }
        }
      }
      return Success(());
    }

    /** A row against its schema and the rest of the store: cells, then UNIQUE, then references. */
    method ValidateRow(cat1: seq<CatEntry>, ti: nat, t: Table, cells: Row, exclude: Option<RowId>,
                       ghost db1: DB, ghost tag1: map<u64, Text>) returns (r: Result<()>)
      requires On(cat1, db1, tag1) && ti < |cat1| && |db1| == |cat1| && t == db1[ti].schema
      modifies heap.pager`cache
      ensures On(cat1, db1, tag1) && r == Validate(db1, ti, cells, exclude)
    {
      hide ChainHeap.Valid, Body, CheckCells, CheckUnique, CheckFks;
      if |cells| != |t.columns| {
        return Failure(Parse("cell count"));
      }
      r := CellsLoop(t, cells);
      if r.Failure? { return; }
      r := UniqueLoop(cat1[ti], t, cells, exclude, cat1, db1, tag1, ti);
      if r.Failure? { return; }
      r := FksLoop(cat1, ti, t, cells, exclude, db1, tag1);
    }

    /** The catalog goes to a new chain, then the old chain is freed. */
    method StoreCatalog(cat1: seq<CatEntry>, ghost db1: DB, ghost tag1: map<u64, Text>) returns (r: Result<()>)
      requires On(cat1, db1, tag1)
      modifies heap, heap.pager`sb, heap.pager`dirty, heap.pager`cache
      ensures heap.pager.Valid()
      ensures Fixed(heap.pager.sb) == old(Fixed(heap.pager.sb)).(catalogHead := heap.pager.sb.catalogHead)
      ensures r.Success? ==> Staged(cat1, db1, tag1)
      ensures r.Failure? ==> r.error == OutOfSpace && Full(heap.pager.sb)
    {
      hide Body, EncodeCat, EncodableCat, Owned, Pager.Valid;
      ghost var blobs, indexes := heap.layout.blobs, heap.layout.indexes;
      HeadsApart(heap.pager.Contents(), heap.pager.sb, heap.layout);
      var was := heap.pager.sb.catalogHead;
      CatFits(blobs - {was}, indexes, cat1, db1, tag1);
      var now := heap.WriteChain(EncodeCat(cat1));
      if now.Failure? { return Failure(now.error); }
      heap.SetCatalogHead(now.value);
      if was != 0 {
        var freed := heap.FreeChain(was);
        assert indexes - {was} == indexes;
        assert heap.layout.blobs - {now.value} == blobs - {was};
      } else {
        assert heap.layout.blobs - {now.value} == blobs - {was};
      }
      return Success(());
    }

    // ---- rows ------------------------------------------------------------------------------------

    /** The row's bytes on a chain, its slot at the end of the index, one more row in the catalog. */
    method PutRow(cat1: seq<CatEntry>, i: nat, cells: Row, ghost db1: DB, ghost tag1: map<u64, Text>)
      returns (r: Result<RowId>, ghost db2: DB, ghost cat2: seq<CatEntry>, ghost tag2: map<u64, Text>)
      requires On(cat1, db1, tag1) && i < |cat1| && |db1| == |cat1| && StorableRow(cells)
      modifies heap, heap.pager`sb, heap.pager`dirty, heap.pager`cache
      ensures heap.pager.Valid() && heap.pager.sb.generation == old(heap.pager.sb.generation)
      ensures r.Success? ==>
        && Staged(cat2, db2, tag2) && db2 == WithRows(db1, i, db1[i].rows + [(r.value, cells)])
        && FindRow(db1[i].rows, r.value).None?
      ensures r.Failure? ==> r.error == OutOfSpace
    {
      hide Body, Owned, Pager.Valid, EncodeRow, Storable, Appended, AppendedId, FindRow, Entries;
      db2, cat2, tag2 := db1, cat1, tag1;
      ghost var c, blobs, indexes := heap.pager.sb.catalogHead, heap.layout.blobs, heap.layout.indexes;
      HeadsApart(heap.pager.Contents(), heap.pager.sb, heap.layout);
      BodyTable(blobs - {c}, indexes, cat1, db1, tag1, i);
      RowsCounted(blobs - {c}, indexes, cat1, db1, tag1, i);
      var bytes := EncodeRowLoop(cells);
      var head := heap.WriteChain(bytes);
      if head.Failure? { return Failure(OutOfSpace), db2, cat2, tag2; }
      var id := heap.IndexAppend(cat1[i].dataHead, head.value);
      if id.Failure? { return Failure(OutOfSpace), db2, cat2, tag2; }
      cat2, tag2 := AddRow(blobs - {c}, indexes, cat1, db1, tag1, i, head.value, id.value.page, cells);
      db2 := WithRows(db1, i, db1[i].rows + [(id.value, cells)]);
      assert heap.layout.blobs - {c} == (blobs - {c})[head.value := bytes];
      NewHandle(blobs - {c}, indexes[cat1[i].dataHead], db1[i].rows, id.value, head.value, cat1[i].dataHead);
      var done := StoreCatalog(cat1[i := cat1[i].(rowCount := cat1[i].rowCount + 1)], db2, tag2);
      if done.Failure? { return Failure(OutOfSpace), db2, cat2, tag2; }
      return Success(id.value), db2, cat2, tag2;
    }

    /** A new row's handle is no live row's. */
    lemma NewHandle(blobs: Blobs, ix: seq<IndexPage>, rows: Rows, id: RowId, head: u64, data: u64)
      requires heap.Valid() && data in heap.layout.indexes && ix != []
      requires heap.layout.indexes[data] == Appended(ix, id.page, head) && id == AppendedId(ix, id.page)
      requires RowsHold(blobs, Entries(ix), rows)
      ensures FindRow(rows, id).None?
    {
      hide Owned, EncodeRow, StorableRow, Entries, Appended, AppendedId, RowsHold;
      IndexPagesDiffer(heap.pager.Contents(), heap.pager.sb, heap.layout, data);
      AppendedIsNew(ix, id.page, head);
      RowsLength(blobs, Entries(ix), rows);
      assert forall k :: 0 <= k < |rows| ==> Entries(ix)[k].0 == rows[k].0;
    }

    /** Page 0 holds no index, so no row has the handle (0, 0). */
    lemma NullHandle(blobs: Blobs, rows: Rows, data: u64)
      requires heap.Valid() && data in heap.layout.indexes
      requires RowsHold(blobs, Entries(heap.layout.indexes[data]), rows)
      ensures FindRow(rows, RowId(0, 0)).None?
    {
      hide EncodeRow, StorableRow, Entries, RowsHold, Pager.Valid, Linked, LenOf, SlotsOf, NextOf, FindRow;
      var l, ix := heap.layout, heap.layout.indexes[data];
      RowsLength(blobs, Entries(ix), rows);
      forall k | 0 <= k < |rows|
        ensures rows[k].0 != RowId(0, 0)
      {
        var m := EntryIsSlot(ix, k);
        IndexPageAt(heap.pager.Contents(), heap.pager.sb, l, data, m);
        assert l.pages[data][m] in l.owner;
      }
    }

    method InsertIn(table: Text, cells: Row)
      returns (r: Result<RowId>, ghost id: RowId, ghost cat1: seq<CatEntry>, ghost db1: DB, ghost tag1: map<u64, Text>)
      requires Valid() && StorableRow(cells)
      modifies heap, heap.pager`sb, heap.pager`dirty, heap.pager`cache
      ensures heap.pager.Valid() && heap.pager.sb.generation == old(heap.pager.sb.generation)
      ensures r.Success? ==>
        r.value == id && Staged(cat1, db1, tag1) && Insert(db, table, cells, id) == Success(db1)
      ensures FreshId(db, table, id)
      ensures r.Failure? ==>
        Insert(db, table, cells, id) == Failure(r.error) ||
          (Insert(db, table, cells, id).Success? && r.error == OutOfSpace)
    {
      hide Body, Pager.Valid, Integrity, Validate, Storable, FindTable, FindRow, CatIndex, EncodeCat, Owned, DiskView;
      id, cat1, db1, tag1 := RowId(0, 0), cat, db, tag;
      var c := LoadCatalog(cat, db, tag);
      BodyIndex(heap.layout.blobs - {heap.pager.sb.catalogHead}, heap.layout.indexes, cat, db, tag, table);
      var i := CatIndex(c.value, table);
      if i.None? { return Failure(NotFound("table")), id, cat1, db1, tag1; }
      ghost var blobs := heap.layout.blobs - {heap.pager.sb.catalogHead};
      BodyTable(blobs, heap.layout.indexes, cat, db, tag, i.value);
      NullHandle(blobs, db[i.value].rows, cat[i.value].dataHead);
      var t := SchemaOf(c.value[i.value], cat, db, tag, i.value);
      var ok := ValidateRow(c.value, i.value, t.value, cells, None, db, tag);
      if ok.Failure? { return Failure(ok.error), id, cat1, db1, tag1; }
      r, db1, cat1, tag1 := PutRow(c.value, i.value, cells, db, tag);
      if r.Success? { id := r.value; }
    }

    /** `insert`: the row goes to the end of its table under a handle no live row has. */
    method InsertRow(table: Text, cells: Row) returns (r: Result<RowId>, ghost id: RowId)
      requires Valid() && StorableRow(cells) && heap.pager.sb.generation + 1 < 0x1_0000_0000_0000_0000
      modifies this, heap, heap.pager, heap.pager.dev
      ensures Tried(Failed(r), Insert(old(db), table, cells, id), old(Now()))
      ensures FreshId(old(db), table, id) && (r.Success? ==> r.value == id)
    {
      hide Body, ChainHeap.Valid, Pager.Valid, Integrity, Validate, Storable, FreshId, Insert, Owned, DiskView, Bears,
        Logical, Sound, VolumeHolds, Store.Anchored, ChainHeap.InHand, Pager.Committed, Pager.Contents, Holds,
        StorableRow;
      ghost var cat1, db1, tag1;
      r, id, cat1, db1, tag1 := InsertIn(table, cells);
      if r.Failure? {
        Abort();
        return;
      }
      KeptIntegrity();
      InsertIntact(db, table, cells, id);
      var done := Finish(cat1, db1, tag1);
      if done.Failure? { r := Failure(done.error); }
    }

    // ---- one row by its handle ---------------------------------------------------------------------

    /** Where a handle's page stands in the index of table `i`: handles of other tables are not covered. */
    ghost predicate PageIn(cat1: seq<CatEntry>, i: nat, id: RowId, k: nat)
      reads heap
    {
      && i < |cat1| && cat1[i].dataHead in heap.layout.indexes
      && k < |heap.layout.indexes[cat1[i].dataHead]| && heap.layout.indexes[cat1[i].dataHead][k].page == id.page
    }

    /** The row behind a handle, and the head of its chain. */
    method RowAt(cat1: seq<CatEntry>, i: nat, id: RowId, ncols: nat, ghost k: nat, ghost db1: DB,
                 ghost tag1: map<u64, Text>)
      returns (r: Result<(u64, Row)>)
      requires On(cat1, db1, tag1) && PageIn(cat1, i, id, k) && |db1| == |cat1| && DistinctIds(db1[i].rows)
      modifies heap.pager`cache
      ensures On(cat1, db1, tag1)
      ensures FindRow(db1[i].rows, id).None? ==> r == Failure(NotFound("row"))
      ensures FindRow(db1[i].rows, id).Some? ==>
        && r.Success? && r.value.1 == Fitted(db1[i].rows[FindRow(db1[i].rows, id).value].1, ncols)
        && SlotIn(heap.layout.indexes[cat1[i].dataHead], k, id)
        && heap.layout.indexes[cat1[i].dataHead][k].slots[id.slot] == r.value.0 != 0
        && r.value.0 in heap.layout.blobs && r.value.0 != heap.pager.sb.catalogHead
    {
      hide Body, Owned, Pager.Valid, EncodeRow, DecodeRow, StorableRow, Entries, RowsHold, FindRow;
      ghost var blobs, ix := heap.layout.blobs - {heap.pager.sb.catalogHead}, heap.layout.indexes[cat1[i].dataHead];
      BodyTable(blobs, heap.layout.indexes, cat1, db1, tag1, i);
      RowsLength(blobs, Entries(ix), db1[i].rows);
      IndexPagesDiffer(heap.pager.Contents(), heap.pager.sb, heap.layout, cat1[i].dataHead);
      var head := heap.RowHeadAt(id, cat1[i].dataHead, k);
      if head.Failure? {
        NoEntry(ix, k, id);
        return Failure(NotFound("row"));
      }
      ghost var p := LiveRow(blobs, heap.layout.indexes, cat1, db1, tag1, i, k, id);
      OneRow(db1[i].rows, id, p);
      var bytes := heap.ReadChain(head.value);
      RowRoundTrip(db1[i].rows[p].1);
      var row := DecodeRow(bytes.value);
      return Success((head.value, Fitted(row.value, ncols)));
    }

    /** The foreign keys of table `j` that still need a value of the row, the first of them. */
    method RestrictFksLoop(cat1: seq<CatEntry>, i: nat, t: Table, id: RowId, row: Row, cells: Option<Row>, j: nat,
                           ghost db1: DB, ghost tag1: map<u64, Text>) returns (blocked: Option<Text>)
      requires On(cat1, db1, tag1) && Integrity(db1) && |db1| == |cat1| && i < |cat1| && j < |cat1| &&
        t == db1[i].schema
      modifies heap.pager`cache
      ensures On(cat1, db1, tag1) && blocked == RestrictFks(db1, i, id, row, cells, j, 0)
    {
      hide ChainHeap.Valid, Body, Integrity, ColumnIndex, FindTable, HasValue, Matched, CellAt;
      var ot := SchemaOf(cat1[j], cat1, db1, tag1, j);
      for k := 0 to |ot.value.fks|
        invariant On(cat1, db1, tag1)
        invariant RestrictFks(db1, i, id, row, cells, j, 0) == RestrictFks(db1, i, id, row, cells, j, k)
      {
        var fk := ot.value.fks[k];
        if fk.toTable == t.name {
          TargetFound(db1, i, j, k);
          var tci := ColumnIndex(t.columns, fk.toCol).value;
          var key := CellAt(row, tci);
          if key.Some? && !(cells.Some? && CellAt(cells.value, tci) == key) {
            var fci := ColumnIndex(ot.value.columns, fk.fromCol).value;
            var rows := RowsOf(cat1[j], cat1, db1, tag1, j);
            if Refers(rows.value, fci, key.value, if j == i then Some(id) else None) {
              return Some(fk.name);
            }
          }
        }
      }
      return None;
    }

    /** The first foreign key, over all tables, under which another row needs what this row gives up. */
    method RestrictLoop(cat1: seq<CatEntry>, i: nat, t: Table, id: RowId, row: Row, cells: Option<Row>,
                        ghost db1: DB, ghost tag1: map<u64, Text>) returns (blocked: Option<Text>)
      requires On(cat1, db1, tag1) && Integrity(db1) && |db1| == |cat1| && i < |cat1| && t == db1[i].schema
      modifies heap.pager`cache
      ensures On(cat1, db1, tag1) && blocked == Restrict(db1, i, id, row, cells, 0)
    {
      hide ChainHeap.Valid, Body, Integrity, RestrictFks;
      for j := 0 to |cat1|
        invariant On(cat1, db1, tag1)
        invariant Restrict(db1, i, id, row, cells, 0) == Restrict(db1, i, id, row, cells, j)
      {
        blocked := RestrictFksLoop(cat1, i, t, id, row, cells, j, db1, tag1);
        if blocked.Some? { return; }
      }
      return None;
    }

    // ---- update and delete ---------------------------------------------------------------------------

    /** A new chain behind the row's slot; the old one is freed. The catalog blob is not touched. */
    method ReplaceRow(cat1: seq<CatEntry>, i: nat, id: RowId, head: u64, cells: Row,
                      ghost k: nat, ghost db1: DB, ghost tag1: map<u64, Text>)
      returns (r: Result<()>, ghost db2: DB, ghost tag2: map<u64, Text>)
      requires On(cat1, db1, tag1) && PageIn(cat1, i, id, k) && |db1| == |cat1| && StorableRow(cells)
      requires SlotIn(heap.layout.indexes[cat1[i].dataHead], k, id)
      requires heap.layout.indexes[cat1[i].dataHead][k].slots[id.slot] == head != 0
      modifies heap, heap.pager`sb, heap.pager`dirty, heap.pager`cache
      ensures heap.pager.Valid() && Fixed(heap.pager.sb) == old(Fixed(heap.pager.sb))
      ensures r.Success? ==>
        && On(cat1, db2, tag2) && heap.pager.dirty != map[]
        && SameBlob(heap.pager.sb.catalogHead, old(heap.layout), heap.layout)
        && exists p :: 0 <= p < |db1[i].rows| && db1[i].rows[p].0 == id
             && db2 == WithRows(db1, i, db1[i].rows[p := (id, cells)])
      ensures r.Failure? ==> r.error == OutOfSpace
    {
      hide Body, Owned, Pager.Valid, EncodeRow, Storable, Entries, WithSlot;
      db2, tag2 := db1, tag1;
      ghost var c, blobs, indexes := heap.pager.sb.catalogHead, heap.layout.blobs, heap.layout.indexes;
      HeadsApart(heap.pager.Contents(), heap.pager.sb, heap.layout);
      ghost var p0 := LiveRow(blobs - {c}, indexes, cat1, db1, tag1, i, k, id);
      var bytes := EncodeRowLoop(cells);
      var new_ := heap.WriteChain(bytes);
      if new_.Failure? { return Failure(OutOfSpace), db2, tag2; }
      var set_ := heap.IndexSet(id, new_.value, cat1[i].dataHead, k);
      var freed := heap.FreeChain(head);
      ghost var p;
      p, tag2 := SetRow(blobs - {c}, indexes, cat1, db1, tag1, i, k, id, new_.value, cells);
      db2 := WithRows(db1, i, db1[i].rows[p := (id, cells)]);
      assert heap.layout.blobs - {c} == (blobs - {c} - {head})[new_.value := bytes];
      assert heap.layout.indexes == indexes[cat1[i].dataHead := WithSlot(indexes[cat1[i].dataHead], k, id, new_.value)];
      return Success(()), db2, tag2;
    }

    /** The handle's page is in the table's index, if there is such a table. */
    ghost predicate Belongs(table: Text, id: RowId, k: nat)
      reads this, heap
    {
      CatIndex(cat, table).Some? ==> PageIn(cat, CatIndex(cat, table).value, id, k)
    }

    method UpdateIn(table: Text, id: RowId, cells: Row, ghost k: nat)
      returns (r: Result<()>, ghost db1: DB, ghost tag1: map<u64, Text>)
      requires Valid() && StorableRow(cells) && Belongs(table, id, k)
      modifies heap, heap.pager`sb, heap.pager`dirty, heap.pager`cache
      ensures heap.pager.Valid() && heap.pager.sb.generation == old(heap.pager.sb.generation)
      ensures r.Success? ==> Staged(cat, db1, tag1) && Update(db, table, id, cells) == Success(db1)
      ensures r.Failure? ==>
        Update(db, table, id, cells) == Failure(r.error) ||
          (Update(db, table, id, cells).Success? && r.error == OutOfSpace)
    {
      hide Body, Pager.Valid, Validate, Restrict, Storable, FindTable, FindRow, CatIndex, EncodeCat, Owned, DiskView,
        TableOk, FksOk, Fitted;
      db1, tag1 := db, tag;
      var c := LoadCatalog(cat, db, tag);
      BodyIndex(heap.layout.blobs - {heap.pager.sb.catalogHead}, heap.layout.indexes, cat, db, tag, table);
      var i := CatIndex(c.value, table);
      if i.None? { return Failure(NotFound("table")), db1, tag1; }
      var t := SchemaOf(c.value[i.value], cat, db, tag, i.value);
      var ok := ValidateRow(c.value, i.value, t.value, cells, Some(id), db, tag);
      if ok.Failure? { return Failure(ok.error), db1, tag1; }
      TableRows(db, i.value);
      var row := RowAt(c.value, i.value, id, |t.value.columns|, k, db, tag);
      if row.Failure? { return Failure(NotFound("row")), db1, tag1; }
      ghost var p := FindRow(db[i.value].rows, id).value;
      FittedSame(db[i.value].rows[p].1, |t.value.columns|);
      var blocked := RestrictLoop(c.value, i.value, t.value, id, row.value.1, Some(cells), db, tag);
      if blocked.Some? { return Failure(ForeignKeyViolation(blocked.value)), db1, tag1; }
      r, db1, tag1 := ReplaceRow(c.value, i.value, id, row.value.0, cells, k, db, tag);
      if r.Success? {
        SameRow(db[i.value].rows, id, cells, p);
      }
    }

    /** `update`: that row changes and no other, and keeps its handle and its place. */
    method UpdateRow(table: Text, id: RowId, cells: Row, ghost k: nat) returns (r: Result<()>)
      requires Valid() && StorableRow(cells) && Belongs(table, id, k)
      requires heap.pager.sb.generation + 1 < 0x1_0000_0000_0000_0000
      modifies this, heap, heap.pager, heap.pager.dev
      ensures Tried(Failed(r), Update(old(db), table, id, cells), old(Now()))
    {
      hide Body, ChainHeap.Valid, Pager.Valid, Integrity, Storable, Update, Owned, DiskView, Bears, Logical, Sound,
        VolumeHolds, Store.Anchored, ChainHeap.InHand, Pager.Committed, Pager.Contents, Holds, StorableRow;
      ghost var db1, tag1;
      r, db1, tag1 := UpdateIn(table, id, cells, k);
      if r.Failure? {
        Abort();
        return;
      }
      KeptIntegrity();
      UpdateIntact(db, table, id, cells);
      var done := Finish(cat, db1, tag1);
      if done.Failure? { r := Failure(done.error); }
    }

    method DeleteIn(table: Text, id: RowId, ghost k: nat)
      returns (r: Result<()>, ghost cat1: seq<CatEntry>, ghost db1: DB, ghost tag1: map<u64, Text>)
      requires Valid() && Belongs(table, id, k)
      modifies heap, heap.pager`sb, heap.pager`dirty, heap.pager`cache
      ensures heap.pager.Valid() && heap.pager.sb.generation == old(heap.pager.sb.generation)
      ensures r.Success? ==> Staged(cat1, db1, tag1) && Delete(db, table, id) == Success(db1)
      ensures r.Failure? ==>
        Delete(db, table, id) == Failure(r.error) || (Delete(db, table, id).Success? && r.error == OutOfSpace)
    {
      hide Body, Pager.Valid, Validate, Restrict, Storable, FindTable, FindRow, CatIndex, EncodeCat, Owned, DiskView,
        TableOk, FksOk, Fitted;
      cat1, db1, tag1 := cat, db, tag;
      var c := LoadCatalog(cat, db, tag);
      BodyIndex(heap.layout.blobs - {heap.pager.sb.catalogHead}, heap.layout.indexes, cat, db, tag, table);
      var i := CatIndex(c.value, table);
      if i.None? { return Failure(NotFound("table")), cat1, db1, tag1; }
      var t := SchemaOf(c.value[i.value], cat, db, tag, i.value);
      TableRows(db, i.value);
      var row := RowAt(c.value, i.value, id, |t.value.columns|, k, db, tag);
      if row.Failure? { return Failure(NotFound("row")), cat1, db1, tag1; }
      ghost var p := FindRow(db[i.value].rows, id).value;
      FittedSame(db[i.value].rows[p].1, |t.value.columns|);
      var blocked := RestrictLoop(c.value, i.value, t.value, id, row.value.1, None, db, tag);
      if blocked.Some? { return Failure(ForeignKeyViolation(blocked.value)), cat1, db1, tag1; }
      r, db1, cat1, tag1 := RemoveRow(c.value, i.value, id, row.value.0, k, db, tag);
      if r.Success? {
        SameRow(db[i.value].rows, id, [], p);
      }
    }

    /** The row's chain is freed, its slot becomes a tombstone, the catalog counts one row less. */
    method RemoveRow(cat1: seq<CatEntry>, i: nat, id: RowId, head: u64, ghost k: nat, ghost db1: DB,
                     ghost tag1: map<u64, Text>)
      returns (r: Result<()>, ghost db2: DB, ghost cat2: seq<CatEntry>, ghost tag2: map<u64, Text>)
      requires On(cat1, db1, tag1) && PageIn(cat1, i, id, k) && |db1| == |cat1|
      requires SlotIn(heap.layout.indexes[cat1[i].dataHead], k, id)
      requires heap.layout.indexes[cat1[i].dataHead][k].slots[id.slot] == head != 0
      modifies heap, heap.pager`sb, heap.pager`dirty, heap.pager`cache
      ensures heap.pager.Valid() && heap.pager.sb.generation == old(heap.pager.sb.generation)
      ensures r.Success? ==>
        && Staged(cat2, db2, tag2)
        && exists p ::
             0 <= p < |db1[i].rows| && db1[i].rows[p].0 == id && db2 == WithRows(db1, i, Without(db1[i].rows, p))
      ensures r.Failure? ==> r.error == OutOfSpace
    {
      hide Body, Owned, Pager.Valid, EncodeRow, Storable, Entries, WithSlot, Without;
      ghost var c, blobs, indexes := heap.pager.sb.catalogHead, heap.layout.blobs, heap.layout.indexes;
      HeadsApart(heap.pager.Contents(), heap.pager.sb, heap.layout);
      ghost var p0 := LiveRow(blobs - {c}, indexes, cat1, db1, tag1, i, k, id);
      var freed := heap.FreeChain(head);
      assert indexes - {head} == indexes;
      var set_ := heap.IndexSet(id, 0, cat1[i].dataHead, k);
      ghost var p;
      p, cat2, tag2 := DropRow(blobs - {c}, indexes, cat1, db1, tag1, i, k, id);
      db2 := WithRows(db1, i, Without(db1[i].rows, p));
      assert heap.layout.blobs - {c} == blobs - {c} - {head};
      r := StoreCatalog(cat1[i := cat1[i].(rowCount := cat1[i].rowCount - 1)], db2, tag2);
    }

    /** `delete`: that row goes and no other changes. */
    method DeleteRow(table: Text, id: RowId, ghost k: nat) returns (r: Result<()>)
      requires Valid() && Belongs(table, id, k)
      requires heap.pager.sb.generation + 1 < 0x1_0000_0000_0000_0000
      modifies this, heap, heap.pager, heap.pager.dev
      ensures Tried(Failed(r), Delete(old(db), table, id), old(Now()))
    {
      hide Body, ChainHeap.Valid, Pager.Valid, Integrity, Storable, Delete, Owned, DiskView, Bears, Logical, Sound,
        VolumeHolds, Store.Anchored, ChainHeap.InHand, Pager.Committed, Pager.Contents, Holds, StorableRow;
      ghost var cat1, db1, tag1;
      r, cat1, db1, tag1 := DeleteIn(table, id, k);
      if r.Failure? {
        Abort();
        return;
      }
      KeptIntegrity();
      DeleteKeeps(db, table, id);
      var done := Finish(cat1, db1, tag1);
      if done.Failure? { r := Failure(done.error); }
    }

    // ---- schema operations ---------------------------------------------------------------------------

    /** A schema blob, an empty index, a catalog entry. */
    method CreateTableIn(name: Text)
      returns (r: Result<()>, ghost cat1: seq<CatEntry>, ghost db1: DB, ghost tag1: map<u64, Text>)
      requires Valid() && |name| < TWO64 && name != []
      modifies heap, heap.pager`sb, heap.pager`dirty, heap.pager`cache
      ensures heap.pager.Valid() && heap.pager.sb.generation == old(heap.pager.sb.generation)
      ensures r.Success? ==> Staged(cat1, db1, tag1) && CreateTable(db, name) == Success(db1)
      ensures r.Failure? ==>
        CreateTable(db, name) == Failure(r.error) || (CreateTable(db, name).Success? && r.error == OutOfSpace)
    {
      hide Body, Pager.Valid, Pager.Committed, FindTable, CatIndex, EncodeCat, Owned, DiskView, Integrity, EncodeTable,
        Entries, DecodeSb;
      cat1, db1, tag1 := cat, db, tag;
      var c := LoadCatalog(cat, db, tag);
      ghost var h, blobs, indexes := heap.pager.sb.catalogHead, heap.layout.blobs, heap.layout.indexes;
      HeadsApart(heap.pager.Contents(), heap.pager.sb, heap.layout);
      BodyIndex(blobs - {h}, indexes, cat, db, tag, name);
      if CatIndex(c.value, name).Some? { return Failure(Duplicate("table")), cat1, db1, tag1; }
      var t := Table(name, [], [], []);
      var schemaHead := heap.WriteChain(EncodeTable(t));
      if schemaHead.Failure? { return Failure(OutOfSpace), cat1, db1, tag1; }
      var dataHead := heap.NewIndex();
      if dataHead.Failure? { return Failure(OutOfSpace), cat1, db1, tag1; }
      cat1, tag1 := AddTable(blobs - {h}, indexes, cat, db, tag, t, schemaHead.value, dataHead.value,
        heap.layout.indexes[dataHead.value]);
      db1 := db + [TableState(t, [])];
      assert heap.layout.blobs - {h} == (blobs - {h})[schemaHead.value := EncodeTable(t)];
      r := StoreCatalog(c.value + [CatEntry(name, schemaHead.value, dataHead.value, 0)], db1, tag1);
    }

    /** `create_table`. */
    method NewTable(name: Text) returns (r: Result<()>)
      requires Valid() && |name| < TWO64 && heap.pager.sb.generation + 1 < 0x1_0000_0000_0000_0000
      modifies this, heap, heap.pager, heap.pager.dev
      ensures Tried(Failed(r), CreateTable(old(db), name), old(Now()))
    {
      hide Body, ChainHeap.Valid, Pager.Valid, Integrity, Owned, DiskView, Bears, FindTable, Logical, Sound,
        VolumeHolds, Store.Anchored, ChainHeap.InHand, Pager.Committed, Pager.Contents, Holds;
      if name == [] {
        return Failure(SchemaRejected("table name is empty"));
      }
      ghost var cat1, db1, tag1;
      r, cat1, db1, tag1 := CreateTableIn(name);
      if r.Failure? {
        Abort();
        return;
      }
      KeptIntegrity();
      CreateTableKeeps(db, name);
      var done := Finish(cat1, db1, tag1);
      if done.Failure? { r := Failure(done.error); }
    }

    /** Another table that points a foreign key at `name`. */
    method PointedInto(cat1: seq<CatEntry>, i: nat, name: Text, ghost db1: DB, ghost tag1: map<u64, Text>)
      returns (found: bool)
      requires On(cat1, db1, tag1) && |db1| == |cat1|
      modifies heap.pager`cache
      ensures On(cat1, db1, tag1)
      ensures found <==> exists j :: 0 <= j < |db1| && j != i && PointsInto(db1[j].schema.fks, name)
    {
      hide ChainHeap.Valid, Body, PointsInto;
      for j := 0 to |cat1|
        invariant On(cat1, db1, tag1)
        invariant forall m :: 0 <= m < j && m != i ==> !PointsInto(db1[m].schema.fks, name)
      {
        if j != i {
          var ot := SchemaOf(cat1[j], cat1, db1, tag1, j);
          if PointsInto(ot.value.fks, name) { return true; }
        }
      }
      return false;
    }

    /** Every row chain, the index, the schema and the catalog entry go. */
    method DropTableIn(name: Text)
      returns (r: Result<()>, ghost cat1: seq<CatEntry>, ghost db1: DB, ghost tag1: map<u64, Text>)
      requires Valid()
      modifies heap, heap.pager`sb, heap.pager`dirty, heap.pager`cache
      ensures heap.pager.Valid() && heap.pager.sb.generation == old(heap.pager.sb.generation)
      ensures r.Success? ==> Staged(cat1, db1, tag1) && DropTable(db, name) == Success(db1)
      ensures r.Failure? ==>
        DropTable(db, name) == Failure(r.error) || (DropTable(db, name).Success? && r.error == OutOfSpace)
    {
      hide Body, Pager.Valid, FindTable, CatIndex, EncodeCat, Owned, DiskView, Integrity, PointsInto;
      cat1, db1, tag1 := cat, db, tag;
      var c := LoadCatalog(cat, db, tag);
      BodyIndex(heap.layout.blobs - {heap.pager.sb.catalogHead}, heap.layout.indexes, cat, db, tag, name);
      var i := CatIndex(c.value, name);
      if i.None? { return Failure(NotFound("table")), cat1, db1, tag1; }
      var pointed := PointedInto(c.value, i.value, name, db, tag);
      if pointed { return Failure(SchemaRejected("table is referenced by a foreign key")), cat1, db1, tag1; }
      r, cat1, db1, tag1 := RemoveTableIn(c.value, i.value, db, tag);
    }

    method RemoveTableIn(cat0: seq<CatEntry>, i: nat, ghost db0: DB, ghost tag0: map<u64, Text>)
      returns (r: Result<()>, ghost cat1: seq<CatEntry>, ghost db1: DB, ghost tag1: map<u64, Text>)
      requires On(cat0, db0, tag0) && i < |cat0| && |db0| == |cat0|
      modifies heap, heap.pager`sb, heap.pager`dirty, heap.pager`cache
      ensures heap.pager.Valid() && heap.pager.sb.generation == old(heap.pager.sb.generation)
      ensures r.Success? ==> Staged(cat1, db1, tag1) && db1 == Without(db0, i)
      ensures r.Failure? ==> r.error == OutOfSpace
    {
      hide Body, Pager.Valid, Owned, Without, Entries, RowsHold, EncodeTable;
      ghost var h, blobs, indexes := heap.pager.sb.catalogHead, heap.layout.blobs, heap.layout.indexes;
      HeadsApart(heap.pager.Contents(), heap.pager.sb, heap.layout);
      BodyTable(blobs - {h}, indexes, cat0, db0, tag0, i);
      tag1 := RemoveTable(blobs - {h}, indexes, cat0, db0, tag0, i);
      cat1, db1 := Without(cat0, i), Without(db0, i);
      FreeRows(cat0[i], cat0, db0, tag0, i);
      ghost var es := Entries(indexes[cat0[i].dataHead]);
      assert heap.layout.blobs == blobs - EntryHeads(es);
      var freed := heap.FreeChain(cat0[i].dataHead);
      assert heap.layout.blobs == blobs - EntryHeads(es) - {cat0[i].dataHead} == blobs - EntryHeads(es);
      SchemaApart(blobs - {h}, indexes, cat0, db0, tag0, i);
      freed := heap.FreeChain(cat0[i].schemaHead);
      assert heap.layout.indexes == indexes - {cat0[i].dataHead};
      assert heap.layout.blobs - {h} == blobs - {h} - OwnOf(cat0, tag0, i);
      r := StoreCatalog(Without(cat0, i), db1, tag1);
    }

    /** The row chains of a table go to the free list. */
    method FreeRows(e: CatEntry, ghost cat1: seq<CatEntry>, ghost db1: DB, ghost tag1: map<u64, Text>, ghost i: nat)
      requires On(cat1, db1, tag1) && i < |cat1| && |db1| == |cat1| && e == cat1[i]
      modifies heap, heap.pager`sb, heap.pager`dirty, heap.pager`cache
      ensures heap.Valid() && Fixed(heap.pager.sb) == old(Fixed(heap.pager.sb))
      ensures e.dataHead in old(heap.layout.indexes) && heap.layout.indexes == old(heap.layout.indexes)
      ensures heap.layout.blobs == old(heap.layout.blobs) - EntryHeads(Entries(old(heap.layout.indexes[e.dataHead])))
    {
      hide Body, Pager.Valid, Owned, Entries, EncodeRow, EncodeTable, StorableRow;
      ghost var h, blobs, indexes := heap.pager.sb.catalogHead, heap.layout.blobs, heap.layout.indexes;
      HeadsApart(heap.pager.Contents(), heap.pager.sb, heap.layout);
      BodyTable(blobs - {h}, indexes, cat1, db1, tag1, i);
      var entries := heap.IndexCollect(e.dataHead);
      var es := entries.value;
      RowHeadsApart(blobs - {h}, indexes, cat1, db1, tag1, i);
      assert EntryHeads(es[..0]) == {};
      for k := 0 to |es|
        invariant heap.Valid() && Fixed(heap.pager.sb) == old(Fixed(heap.pager.sb))
        invariant heap.layout.indexes == indexes && heap.layout.blobs == blobs - EntryHeads(es[..k])
      {
        HeadsPush(es[..k], es[k]);
        assert es[..k + 1] == es[..k] + [es[k]];
        NotAmong(es, k);
        var freed := heap.FreeChain(es[k].1);
        assert indexes - {es[k].1} == indexes;
      }
      assert es[..|es|] == es;
    }

    /** `drop_table`. */
    method RemoveTableNamed(name: Text) returns (r: Result<()>)
      requires Valid() && heap.pager.sb.generation + 1 < 0x1_0000_0000_0000_0000
      modifies this, heap, heap.pager, heap.pager.dev
      ensures Tried(Failed(r), DropTable(old(db), name), old(Now()))
    {
      hide Body, ChainHeap.Valid, Pager.Valid, Integrity, Owned, DiskView, Bears, FindTable, DropTable, Logical, Sound,
        VolumeHolds, Store.Anchored, ChainHeap.InHand, Pager.Committed, Pager.Contents, Holds;
      ghost var cat1, db1, tag1;
      r, cat1, db1, tag1 := DropTableIn(name);
      if r.Failure? {
        Abort();
        return;
      }
      KeptIntegrity();
      DropTableKeeps(db, name);
      var done := Finish(cat1, db1, tag1);
      if done.Failure? { r := Failure(done.error); }
    }

    /** A table's schema on a new chain; the old one is freed. */
    method SwapSchema(cat1: seq<CatEntry>, i: nat, t: Table, ghost db1: DB, ghost tag1: map<u64, Text>)
      returns (r: Result<seq<CatEntry>>, ghost db2: DB, ghost tag2: map<u64, Text>)
      requires On(cat1, db1, tag1) && i < |cat1| && |db1| == |cat1| && t.name == db1[i].schema.name && EncodableTable(t)
      modifies heap, heap.pager`sb, heap.pager`dirty, heap.pager`cache
      ensures heap.pager.Valid() && Fixed(heap.pager.sb) == old(Fixed(heap.pager.sb))
      ensures r.Success? ==>
        && On(r.value, db2, tag2) && db2 == db1[i := db1[i].(schema := t)]
        && |r.value| == |cat1| && forall k :: 0 <= k < |cat1| && k != i ==> r.value[k] == cat1[k]
      ensures r.Failure? ==> r.error == OutOfSpace
    {
      hide Body, Pager.Valid, Owned, DiskView, Integrity, EncodeTable, EncodableTable, Entries, DecodeSb;
      db2, tag2 := db1, tag1;
      ghost var h, blobs, indexes := heap.pager.sb.catalogHead, heap.layout.blobs, heap.layout.indexes;
      HeadsApart(heap.pager.Contents(), heap.pager.sb, heap.layout);
      BodyTable(blobs - {h}, indexes, cat1, db1, tag1, i);
      var old_ := cat1[i].schemaHead;
      var new_ := heap.WriteChain(EncodeTable(t));
      if new_.Failure? { return Failure(OutOfSpace), db2, tag2; }
      var freed := heap.FreeChain(old_);
      assert heap.layout.indexes == indexes;
      ghost var cat2;
      cat2, tag2 := SetSchema(blobs - {h}, indexes, cat1, db1, tag1, i, new_.value, t);
      db2 := db1[i := db1[i].(schema := t)];
      assert heap.layout.blobs - {h} == (blobs - {h})[new_.value := EncodeTable(t)] - {old_};
      return Success(cat1[i := cat1[i].(schemaHead := new_.value)]), db2, tag2;
    }

    /** The `j`-th row transformed. */
    method RewriteRow(cat1: seq<CatEntry>, i: nat, id: RowId, head: u64, f: Row -> Row,
                      ghost j: nat, ghost db1: DB, ghost tag1: map<u64, Text>)
      returns (r: Result<()>, ghost db2: DB, ghost tag2: map<u64, Text>)
      requires On(cat1, db1, tag1) && i < |cat1| && |db1| == |cat1| && cat1[i].dataHead in heap.layout.indexes
      requires DistinctIds(db1[i].rows) && j < |db1[i].rows| && StorableRow(f(db1[i].rows[j].1))
      requires var es := Entries(heap.layout.indexes[cat1[i].dataHead]); j < |es| && es[j] == (id, head)
      modifies heap, heap.pager`sb, heap.pager`dirty, heap.pager`cache
      ensures heap.pager.Valid() && Fixed(heap.pager.sb) == old(Fixed(heap.pager.sb))
      ensures r.Success? ==>
        && On(cat1, db2, tag2) && db2 == WithRows(db1, i, db1[i].rows[j := (db1[i].rows[j].0, f(db1[i].rows[j].1))])
        && cat1[i].dataHead in heap.layout.indexes
        && exists x ::
             Entries(heap.layout.indexes[cat1[i].dataHead]) ==
               Entries(old(heap.layout.indexes[cat1[i].dataHead]))[j := (id, x)]
      ensures r.Failure? ==> r.error == OutOfSpace
    {
      hide Body, Pager.Valid, Owned, EncodeTable, EncodableTable, EncodeRow, StorableRow, DecodeRow, RowsHold, Entries;
      ghost var h := heap.pager.sb.catalogHead;
      ghost var es := Entries(heap.layout.indexes[cat1[i].dataHead]);
      HeadsApart(heap.pager.Contents(), heap.pager.sb, heap.layout);
      BodyTable(heap.layout.blobs - {h}, heap.layout.indexes, cat1, db1, tag1, i);
      RowBytes(heap.layout.blobs - {h}, es, db1[i].rows, j);
      var bytes := heap.ReadChain(head);
      var cells := DecodeRow(bytes.value);
      r, db2, tag2 := WriteOver(cat1, i, id, head, f(cells.value), j, db1, tag1);
    }

    /** The row's chain is freed before the new one is written, so the new one may reuse its pages. */
    method WriteOver(cat1: seq<CatEntry>, i: nat, id: RowId, head: u64, cells: Row,
                     ghost j: nat, ghost db1: DB, ghost tag1: map<u64, Text>)
      returns (r: Result<()>, ghost db2: DB, ghost tag2: map<u64, Text>)
      requires On(cat1, db1, tag1) && i < |cat1| && |db1| == |cat1| && cat1[i].dataHead in heap.layout.indexes
      requires DistinctIds(db1[i].rows) && j < |db1[i].rows| && StorableRow(cells) && db1[i].rows[j].0 == id
      requires var es := Entries(heap.layout.indexes[cat1[i].dataHead]); j < |es| && es[j] == (id, head)
      requires head in heap.layout.blobs && head != heap.pager.sb.catalogHead
      modifies heap, heap.pager`sb, heap.pager`dirty, heap.pager`cache
      ensures heap.pager.Valid() && Fixed(heap.pager.sb) == old(Fixed(heap.pager.sb))
      ensures r.Success? ==>
        && On(cat1, db2, tag2) && db2 == WithRows(db1, i, db1[i].rows[j := (id, cells)])
        && cat1[i].dataHead in heap.layout.indexes
        && exists x ::
             Entries(heap.layout.indexes[cat1[i].dataHead]) ==
               Entries(old(heap.layout.indexes[cat1[i].dataHead]))[j := (id, x)]
      ensures r.Failure? ==> r.error == OutOfSpace
    {
      hide Body, Pager.Valid, Owned, EncodeTable, EncodableTable, EncodeRow, StorableRow, Entries, WithSlot,
        DistinctIds, FindRow;
      db2, tag2 := db1, tag1;
      ghost var h, blobs, indexes := heap.pager.sb.catalogHead, heap.layout.blobs, heap.layout.indexes;
      ghost var data := cat1[i].dataHead;
      HeadsApart(heap.pager.Contents(), heap.pager.sb, heap.layout);
      ghost var k := EntryIsSlot(indexes[data], j);
      var freed := heap.FreeChain(head);
      assert heap.layout.indexes == indexes;
      var image := EncodeRowLoop(cells);
      var new_ := heap.WriteChain(image);
      if new_.Failure? { return Failure(OutOfSpace), db2, tag2; }
      var set_ := heap.IndexSet(id, new_.value, data, k);
      ghost var p;
      p, tag2 := SetRow(blobs - {h}, indexes, cat1, db1, tag1, i, k, id, new_.value, cells);
      OneRow(db1[i].rows, id, p);
      OneRow(db1[i].rows, id, j);
      db2 := WithRows(db1, i, db1[i].rows[j := (id, cells)]);
      assert heap.layout.blobs - {h} == (blobs - {h} - {head})[new_.value := image];
      return Success(()), db2, tag2;
    }

    /** Every row of a table transformed. */
    method RewriteRows(cat1: seq<CatEntry>, i: nat, f: Row -> Row, ghost db1: DB, ghost tag1: map<u64, Text>)
      returns (r: Result<()>, ghost db2: DB, ghost tag2: map<u64, Text>)
      requires On(cat1, db1, tag1) && i < |cat1| && |db1| == |cat1| && DistinctIds(db1[i].rows)
      requires forall k :: 0 <= k < |db1[i].rows| ==> StorableRow(f(db1[i].rows[k].1))
      modifies heap, heap.pager`sb, heap.pager`dirty, heap.pager`cache
      ensures heap.pager.Valid() && Fixed(heap.pager.sb) == old(Fixed(heap.pager.sb))
      ensures r.Success? ==> On(cat1, db2, tag2) && db2 == WithRows(db1, i, MapRows(db1[i].rows, f))
      ensures r.Failure? ==> r.error == OutOfSpace
    {
      hide Body, Owned, Pager.Valid, EncodeTable, EncodableTable, EncodeRow, StorableRow, RowsHold, Entries,
        DistinctIds, Fixed;
      db2, tag2 := db1, tag1;
      ghost var rows, data := db1[i].rows, cat1[i].dataHead;
      BodyTable(heap.layout.blobs - {heap.pager.sb.catalogHead}, heap.layout.indexes, cat1, db1, tag1, i);
      var entries := heap.IndexCollect(cat1[i].dataHead);
      var es := entries.value;
      RowsLength(heap.layout.blobs - {heap.pager.sb.catalogHead}, es, rows);
      assert PartMapped(rows, f, 0) == rows;
      for j := 0 to |es|
        invariant On(cat1, db2, tag2) && db2 == WithRows(db1, i, PartMapped(rows, f, j))
        invariant Fixed(heap.pager.sb) == old(Fixed(heap.pager.sb))
        invariant data in heap.layout.indexes && |Entries(heap.layout.indexes[data])| == |es|
        invariant forall m :: j <= m < |es| ==> Entries(heap.layout.indexes[data])[m] == es[m]
      {
        PartMappedStep(rows, f, j);
        r, db2, tag2 := RewriteRow(cat1, i, es[j].0, es[j].1, f, j, db2, tag2);
        if r.Failure? { return; }
      }
      assert PartMapped(rows, f, |es|) == MapRows(rows, f);
      return Success(()), db2, tag2;
    }

    method PutSchemaIn(table: Text, mutate: Table -> Result<Table>, rewrite: Option<Row -> Row>)
      returns (r: Result<()>, ghost cat1: seq<CatEntry>, ghost db1: DB, ghost tag1: map<u64, Text>)
      requires Valid() && KeepsName(mutate) && EncodableDB(Put(db, table, mutate, rewrite))
      modifies heap, heap.pager`sb, heap.pager`dirty, heap.pager`cache
      ensures heap.pager.Valid() && heap.pager.sb.generation == old(heap.pager.sb.generation)
      ensures r.Success? ==> Staged(cat1, db1, tag1) && Put(db, table, mutate, rewrite) == Success(db1)
      ensures r.Failure? ==>
        || Put(db, table, mutate, rewrite) == Failure(r.error)
        || (Put(db, table, mutate, rewrite).Success? && r.error == OutOfSpace)
    {
      hide Body, Pager.Valid, FindTable, CatIndex, EncodeCat, Owned, DiskView, TableOk, FksOk, EncodableTable,
        StorableRow, MapRows;
      cat1, db1, tag1 := cat, db, tag;
      var c := LoadCatalog(cat, db, tag);
      BodyIndex(heap.layout.blobs - {heap.pager.sb.catalogHead}, heap.layout.indexes, cat, db, tag, table);
      var i := CatIndex(c.value, table);
      if i.None? { return Failure(NotFound("table")), cat1, db1, tag1; }
      var t := SchemaOf(c.value[i.value], cat, db, tag, i.value);
      var mutated := mutate(t.value);
      if mutated.Failure? { return Failure(mutated.error), cat1, db1, tag1; }
      PutFits(db, table, mutate, rewrite);
      if rewrite.Some? {
        TableRows(db, i.value);
        r, db1, tag1 := RewriteRows(c.value, i.value, rewrite.value, db, tag);
        if r.Failure? { return; }
      }
      var swapped;
      swapped, db1, tag1 := SwapSchema(c.value, i.value, mutated.value, db1, tag1);
      if swapped.Failure? { return Failure(OutOfSpace), cat1, db1, tag1; }
      cat1 := swapped.value;
      PutAt(db, table, mutate, rewrite);
      r := StoreCatalog(swapped.value, db1, tag1);
    }

    /** Replace a table's schema and, where asked, transform every row. */
    method PutSchema(table: Text, mutate: Table -> Result<Table>, rewrite: Option<Row -> Row>) returns (r: Result<()>)
      requires Valid() && KeepsName(mutate) && EncodableDB(Put(db, table, mutate, rewrite))
      requires Put(db, table, mutate, rewrite).Success? ==> Integrity(Put(db, table, mutate, rewrite).value)
      requires heap.pager.sb.generation + 1 < 0x1_0000_0000_0000_0000
      modifies this, heap, heap.pager, heap.pager.dev
      ensures Tried(Failed(r), Put(old(db), table, mutate, rewrite), old(Now()))
    {
      hide Body, ChainHeap.Valid, Pager.Valid, Integrity, Owned, DiskView, Bears, Put, EncodableDB, KeepsName, Logical,
        Sound, VolumeHolds, Store.Anchored, ChainHeap.InHand, Pager.Committed, Pager.Contents, Holds;
      ghost var cat1, db1, tag1;
      r, cat1, db1, tag1 := PutSchemaIn(table, mutate, rewrite);
      if r.Failure? {
        Abort();
        return;
      }
      var done := Finish(cat1, db1, tag1);
      if done.Failure? { r := Failure(done.error); }
    }
  }

  lemma UpdateIntact(db: DB, table: Text, id: RowId, cells: Row)
    requires Integrity(db) && Update(db, table, id, cells).Success? && StorableRow(cells)
    ensures Integrity(Update(db, table, id, cells).value)
  {
    hide Integrity, Update, Storable;
    UpdateKeeps(db, table, id, cells);
  }

  lemma TableRows(db: DB, i: nat)
    requires Integrity(db) && i < |db|
    ensures DistinctIds(db[i].rows)
    ensures forall p :: 0 <= p < |db[i].rows| ==> |db[i].rows[p].1| == |db[i].schema.columns|
  {
    hide CellOk, FksOk;
    assert TableOk(db[i]);
    assert forall p :: 0 <= p < |db[i].rows| ==> RowOk(db[i].schema.columns, db[i].rows[p].1);
  }

  lemma FittedSame(row: Row, n: nat)
    requires |row| == n
    ensures Fitted(row, n) == row
  {
  }

  lemma SameRow(rows: Rows, id: RowId, cells: Row, p: nat)
    requires DistinctIds(rows) && p < |rows| && rows[p].0 == id
    ensures forall q :: 0 <= q < |rows| && rows[q].0 == id ==> q == p
    ensures Without(rows, p) == rows[..p] + rows[p + 1..]
  {
  }

  /** A table's schema chain is none of its row chains. */
  lemma SchemaApart(blobs: Blobs, indexes: Indexes, cat: seq<CatEntry>, db: DB, tag: map<u64, Text>, i: nat)
    requires Body(blobs, indexes, cat, db, tag) && i < |cat|
    ensures cat[i].dataHead in indexes && cat[i].schemaHead in blobs
    ensures cat[i].schemaHead !in EntryHeads(Entries(indexes[cat[i].dataHead]))
  {
    hide Entries, EncodeTable, EncodableTable, RowsHold;
    assert |db| == |cat| && TableHolds(blobs, indexes, Owns(tag, cat[i].name), cat[i], db[i]);
  }

  lemma RowHeadsApart(blobs: Blobs, indexes: Indexes, cat: seq<CatEntry>, db: DB, tag: map<u64, Text>, i: nat)
    requires Body(blobs, indexes, cat, db, tag) && i < |cat|
    ensures cat[i].dataHead in indexes && DistinctHeads(Entries(indexes[cat[i].dataHead]))
    ensures forall k :: 0 <= k < |Entries(indexes[cat[i].dataHead])| ==> Entries(indexes[cat[i].dataHead])[k].1 in blobs
  {
    hide Entries, EncodeTable, EncodableTable, EncodeRow, StorableRow;
    assert |db| == |cat| && TableHolds(blobs, indexes, Owns(tag, cat[i].name), cat[i], db[i]);
  }

  lemma NotAmong(es: seq<(RowId, u64)>, k: nat)
    requires DistinctHeads(es) && k < |es|
    ensures es[k].1 !in EntryHeads(es[..k])
  {
  }

  /** What replacing a schema does to the database. */
  ghost function Put(db: DB, table: Text, mutate: Table -> Result<Table>, rewrite: Option<Row -> Row>): Result<DB> {
    var i := FindTable(db, table);
    if i.None? then Failure(NotFound("table"))
    else
      var t := mutate(db[i.value].schema);
      if t.Failure? then Failure(t.error)
      else Success(db[i.value := TableState(t.value,
        if rewrite.None? then db[i.value].rows else MapRows(db[i.value].rows, rewrite.value))])
  }

  lemma PutAt(db: DB, table: Text, mutate: Table -> Result<Table>, rewrite: Option<Row -> Row>)
    requires FindTable(db, table).Some? && mutate(db[FindTable(db, table).value].schema).Success?
    ensures var i := FindTable(db, table).value;
      var mid := if rewrite.None? then db else WithRows(db, i, MapRows(db[i].rows, rewrite.value));
      Put(db, table, mutate, rewrite) == Success(mid[i := mid[i].(schema := mutate(db[i].schema).value)])
  {
    hide FindTable, MapRows;
    var i := FindTable(db, table).value;
    var t := mutate(db[i].schema).value;
    if rewrite.Some? {
      var rows := MapRows(db[i].rows, rewrite.value);
      assert WithRows(db, i, rows)[i := TableState(t, rows)] == db[i := TableState(t, rows)];
    } else {
      assert db[i].(schema := t) == TableState(t, db[i].rows);
    }
  }

  ghost predicate KeepsName(mutate: Table -> Result<Table>) {
    forall t: Table :: mutate(t).Success? ==> mutate(t).value.name == t.name
  }

  /** Every count and every text of the result fits a machine word. */
  ghost predicate EncodableDB(want: Result<DB>) {
    want.Success? ==> forall d :: 0 <= d < |want.value| ==>
      EncodableTable(want.value[d].schema) && AllStorable(want.value[d].rows)
  }

  ghost predicate AllStorable(rows: Rows) {
    forall k :: 0 <= k < |rows| ==> StorableRow(rows[k].1)
  }

  lemma PutFits(db: DB, table: Text, mutate: Table -> Result<Table>, rewrite: Option<Row -> Row>)
    requires EncodableDB(Put(db, table, mutate, rewrite)) && FindTable(db, table).Some?
    requires mutate(db[FindTable(db, table).value].schema).Success?
    ensures var i := FindTable(db, table).value;
      && EncodableTable(mutate(db[i].schema).value)
      && (rewrite.Some? ==> forall k :: 0 <= k < |db[i].rows| ==> StorableRow(rewrite.value(db[i].rows[k].1)))
  {
    hide FindTable, EncodableTable, StorableRow;
    var i, want := FindTable(db, table).value, Put(db, table, mutate, rewrite).value;
    assert EncodableTable(want[i].schema) && AllStorable(want[i].rows);
    if rewrite.Some? {
      forall k | 0 <= k < |db[i].rows|
        ensures StorableRow(rewrite.value(db[i].rows[k].1))
      {
        assert want[i].rows[k].1 == rewrite.value(db[i].rows[k].1);
      }
    }
  }

  /** The first `n` rows transformed. */
  ghost function PartMapped(rows: Rows, f: Row -> Row, n: nat): (r: Rows)
    ensures |r| == |rows|
  {
    seq(|rows|, k requires 0 <= k < |rows| => (rows[k].0, if k < n then f(rows[k].1) else rows[k].1))
  }

  lemma PartMappedStep(rows: Rows, f: Row -> Row, n: nat)
    requires n < |rows|
    ensures PartMapped(rows, f, n + 1) == PartMapped(rows, f, n)[n := (rows[n].0, f(rows[n].1))]
    ensures PartMapped(rows, f, n)[n] == rows[n]
    ensures DistinctIds(rows) ==> DistinctIds(PartMapped(rows, f, n))
  {
  }

  lemma OneRow(rows: Rows, id: RowId, p: nat)
    requires DistinctIds(rows) && p < |rows| && rows[p].0 == id
    ensures FindRow(rows, id) == Some(p)
  {
  }

  ghost predicate SameBlob(h: u64, l: Layout, l': Layout) {
    h in l.blobs ==> h in l'.blobs && l'.blobs[h] == l.blobs[h]
  }

  lemma InsertIntact(db: DB, table: Text, cells: Row, id: RowId)
    requires Integrity(db) && Insert(db, table, cells, id).Success? && StorableRow(cells)
    requires FreshId(db, table, id)
    ensures Integrity(Insert(db, table, cells, id).value)
  {
    hide Integrity, Validate, Storable, FindRow;
    InsertKeeps(db, table, cells, id);
  }
}
