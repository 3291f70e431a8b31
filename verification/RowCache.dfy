/** The browser's row list: filtered, stably sorted, and cached by store generation. */
module RowCache {
  import opened Errors
  import opened Bytes
  import opened Bignum
  import opened Value
  import opened Meaning
  import opened Codec
  import opened Schema
  import opened Pager
  import opened ChainStore
  import opened Chains
  import opened Relational
  import opened Store
  import opened StoreQueries

  type Filter = Option<(Text, Value)>
  type Sort = Option<(nat, bool)>

  // ---- the order of the list -------------------------------------------------------------------

  /** NULLs sort to the bottom in either direction. */
  function CompareCells(a: Cell, b: Cell, asc: bool): Ordering {
    match (a, b)
    case (Some(x), Some(y)) => if asc then CompareValue(x, y) else CompareValue(y, x)
    case (Some(_), None) => Less
    case (None, Some(_)) => Greater
    case (None, None) => Equal
  }

  predicate Comparable(c: Cell) {
    c.Some? ==> c.value.Canonical()
  }

  /** A total preorder in which only equal cells tie. */
  lemma CellOrder(a: Cell, b: Cell, c: Cell, asc: bool)
    requires Comparable(a) && Comparable(b) && Comparable(c)
    ensures Lawful(CompareCells(a, b, asc), CompareCells(b, a, asc), CompareCells(b, c, asc), CompareCells(a, c, asc),
      a == b)
    ensures CompareCells(b, c, asc) == Equal <==> b == c
  {
    hide CompareValue;
    if a.Some? && b.Some? && c.Some? {
      if asc { ValueOrder(a.value, b.value, c.value); } else { Backwards(a.value, b.value, c.value); }
      ValueOrder(b.value, c.value, a.value);
      ValueOrder(c.value, b.value, a.value);
    } else if a.Some? && b.Some? {
      ValueOrder(a.value, b.value, a.value);
      ValueOrder(b.value, a.value, a.value);
    } else if b.Some? && c.Some? {
      ValueOrder(b.value, c.value, b.value);
      ValueOrder(c.value, b.value, b.value);
    }
  }

  lemma Backwards(a: Value, b: Value, c: Value)
    requires a.Canonical() && b.Canonical() && c.Canonical()
    ensures Lawful(CompareValue(b, a), CompareValue(a, b), CompareValue(c, b), CompareValue(c, a), a == b)
  {
    hide CompareValue;
    ValueOrder(c, b, a);
    ValueOrder(b, a, c);
    ValueOrder(a, b, c);
  }

  function Key(r: (RowId, Row), ci: nat): Cell {
    CellAt(r.1, ci)
  }

  predicate AllComparable(rows: Rows, ci: nat) {
    forall k :: 0 <= k < |rows| ==> Comparable(Key(rows[k], ci))
  }

  /** The row goes before the first that is not smaller. */
  function Place(row: (RowId, Row), rows: Rows, ci: nat, asc: bool): Rows {
    if rows == [] || CompareCells(Key(row, ci), Key(rows[0], ci), asc) != Greater then [row] + rows
    else [rows[0]] + Place(row, rows[1..], ci, asc)
  }

  function SortRows(rows: Rows, ci: nat, asc: bool): Rows {
    if rows == [] then [] else Place(rows[0], SortRows(rows[1..], ci, asc), ci, asc)
  }

  ghost predicate Ordered(rows: Rows, ci: nat, asc: bool) {
    forall i, j :: 0 <= i < j < |rows| ==> CompareCells(Key(rows[i], ci), Key(rows[j], ci), asc) != Greater
  }

  /** The rows with cell `c`, in order. */
  function Group(rows: Rows, ci: nat, c: Cell): Rows {
    if rows == [] then []
    else if Key(rows[0], ci) == c then [rows[0]] + Group(rows[1..], ci, c)
    else Group(rows[1..], ci, c)
  }

  lemma {:induction false} PlaceElements(row: (RowId, Row), rows: Rows, ci: nat, asc: bool)
    ensures forall x :: x in Place(row, rows, ci, asc) <==> x == row || x in rows
  {
    hide CompareCells;
    if rows != [] {
      PlaceElements(row, rows[1..], ci, asc);
      assert rows == [rows[0]] + rows[1..];
    }
  }

  lemma {:induction false} PlaceOrdered(row: (RowId, Row), rows: Rows, ci: nat, asc: bool)
    requires Ordered(rows, ci, asc) && AllComparable(rows, ci) && Comparable(Key(row, ci))
    ensures Ordered(Place(row, rows, ci, asc), ci, asc) && AllComparable(Place(row, rows, ci, asc), ci)
  {
    hide CompareCells, Comparable, Key;
    PlaceElements(row, rows, ci, asc);
    if rows == [] {
    } else if CompareCells(Key(row, ci), Key(rows[0], ci), asc) != Greater {
      forall j | 0 <= j < |rows|
        ensures CompareCells(Key(row, ci), Key(rows[j], ci), asc) != Greater
      {
        CellOrder(Key(row, ci), Key(rows[0], ci), Key(rows[j], ci), asc);
      }
    } else {
      PlaceOrdered(row, rows[1..], ci, asc);
      PlaceElements(row, rows[1..], ci, asc);
      CellOrder(Key(row, ci), Key(rows[0], ci), Key(rows[0], ci), asc);
      var rest := Place(row, rows[1..], ci, asc);
      forall j | 0 <= j < |rest|
        ensures CompareCells(Key(rows[0], ci), Key(rest[j], ci), asc) != Greater
      {
        assert rest[j] in rest;
        assert rest[j] == row || rest[j] in rows[1..];
      }
    }
  }

  lemma {:induction false} PlaceGroup(row: (RowId, Row), rows: Rows, ci: nat, asc: bool, c: Cell)
    requires AllComparable(rows, ci) && Comparable(Key(row, ci))
    ensures Group(Place(row, rows, ci, asc), ci, c) ==
      if Key(row, ci) == c then [row] + Group(rows, ci, c) else Group(rows, ci, c)
  {
    hide CompareCells, Comparable, Key;
    if rows != [] && CompareCells(Key(row, ci), Key(rows[0], ci), asc) == Greater {
      CellOrder(Key(row, ci), Key(rows[0], ci), Key(rows[0], ci), asc);
      PlaceGroup(row, rows[1..], ci, asc, c);
    } else {
      assert ([row] + rows)[1..] == rows;
    }
  }

  /** The list is sorted, NULLs last, and the rows of each value are exactly those of the table, in their old order. */
  lemma {:induction false} SortIsStable(rows: Rows, ci: nat, asc: bool)
    requires AllComparable(rows, ci)
    ensures var r := SortRows(rows, ci, asc);
      Ordered(r, ci, asc) && AllComparable(r, ci) && forall c :: Group(r, ci, c) == Group(rows, ci, c)
  {
    hide CompareCells, Comparable, Key;
    if rows != [] {
      var rest := SortRows(rows[1..], ci, asc);
      SortIsStable(rows[1..], ci, asc);
      PlaceOrdered(rows[0], rest, ci, asc);
      forall c
        ensures Group(SortRows(rows, ci, asc), ci, c) == Group(rows, ci, c)
      {
        PlaceGroup(rows[0], rest, ci, asc, c);
      }
    }
  }

  // ---- the list -----------------------------------------------------------------------------------

  /** What the browser shows: the table's rows, those that match the filter, in the order asked for. A missing table
      has no rows and a missing column filters nothing. */
  function Listed(db: DB, table: Text, filter: Filter, sort: Sort): Rows {
    match FindTable(db, table)
    case None => SortedBy([], sort)
    case Some(i) => SortedBy(FilteredBy(db[i], filter), sort)
  }

  function FilteredBy(t: TableState, filter: Filter): Rows {
    match filter
    case None => t.rows
    case Some((col, v)) =>
      match ColumnIndex(t.schema.columns, col)
      case None => t.rows
      case Some(ci) => Matching(t.rows, ci, v)
  }

  function SortedBy(rows: Rows, sort: Sort): Rows {
    match sort
    case None => rows
    case Some((ci, asc)) => SortRows(rows, ci, asc)
  }

  /** Sorting the list keeps the filter's rows, orders them and is stable, in every store. */
  lemma ListedIsSorted(db: DB, table: Text, filter: Filter, ci: nat, asc: bool)
    requires Integrity(db)
    ensures var plain, shown := Listed(db, table, filter, None), Listed(db, table, filter, Some((ci, asc)));
      Ordered(shown, ci, asc) && forall c :: Group(shown, ci, c) == Group(plain, ci, c)
  {
    hide FindTable, ColumnIndex, Integrity, SortRows, Matching, Ordered, Group;
    var plain := Listed(db, table, filter, None);
    forall k | 0 <= k < |plain|
      ensures Comparable(Key(plain[k], ci))
    {
      var i := FindTable(db, table).value;
      assert plain[k] in plain;
      assert plain[k] in db[i].rows;
      var m :| 0 <= m < |db[i].rows| && db[i].rows[m] == plain[k];
      StoredComparable(db, i, m, ci);
    }
    SortIsStable(plain, ci, asc);
  }

  /** NULLs come last in either direction, and no value comes before an earlier one of the list, or after it when the
      list descends. */
  lemma ListedAscends(db: DB, table: Text, filter: Filter, ci: nat, asc: bool, i: nat, j: nat)
    requires Integrity(db) && i < j < |Listed(db, table, filter, Some((ci, asc)))|
    ensures var shown := Listed(db, table, filter, Some((ci, asc)));
      var a, b := Key(shown[i], ci), Key(shown[j], ci);
      && (b.Some? ==> a.Some?)
      && (a.Some? && b.Some? ==> if asc then !ComesBefore(b.value, a.value) else !ComesBefore(a.value, b.value))
  {
    hide Listed, Integrity, Ordered, Group, CompareValue, ComesBefore, Lawful;
    ListedIsSorted(db, table, filter, ci, asc);
    var shown := Listed(db, table, filter, Some((ci, asc)));
    ListedOrdered(shown, ci, asc, i, j);
    ListedKey(db, table, filter, ci, asc, i);
    ListedKey(db, table, filter, ci, asc, j);
    var a, b := Key(shown[i], ci), Key(shown[j], ci);
    if a.Some? && b.Some? {
      LessMeans(a.value, b.value);
      LessMeans(b.value, a.value);
      ValueOrder(a.value, b.value, b.value);
      NotGreater(a.value, b.value);
    }
  }

  lemma ListedOrdered(shown: Rows, ci: nat, asc: bool, i: nat, j: nat)
    requires Ordered(shown, ci, asc) && i < j < |shown|
    ensures CompareCells(Key(shown[i], ci), Key(shown[j], ci), asc) != Greater
  {
  }

  lemma NotGreater(a: Value, b: Value)
    requires Lawful(CompareValue(a, b), CompareValue(b, a), CompareValue(b, b), CompareValue(a, b), a == b)
    ensures CompareValue(a, b) != Greater <==> CompareValue(b, a) != Less
    ensures CompareValue(b, a) != Greater <==> CompareValue(a, b) != Less
  {
  }

  /** The cells of the list's column are values of that column's type. */
  lemma ListedKey(db: DB, table: Text, filter: Filter, ci: nat, asc: bool, k: nat)
    requires Integrity(db) && k < |Listed(db, table, filter, Some((ci, asc)))|
    ensures var c := Key(Listed(db, table, filter, Some((ci, asc)))[k], ci);
      c.Some? ==>
        && FindTable(db, table).Some? && ci < |db[FindTable(db, table).value].schema.columns|
        && c.value.Canonical() && c.value.TypeOf() == db[FindTable(db, table).value].schema.columns[ci].ty
  {
    hide FindTable, ColumnIndex, Integrity, Matching;
    var shown := Listed(db, table, filter, Some((ci, asc)));
    var plain := Listed(db, table, filter, None);
    SortElements(plain, ci, asc);
    assert shown[k] in plain;
    var i := FindTable(db, table).value;
    assert shown[k] in db[i].rows;
    var m :| 0 <= m < |db[i].rows| && db[i].rows[m] == shown[k];
    StoredTyped(db, i, m, ci);
  }

  lemma StoredTyped(db: DB, i: nat, m: nat, ci: nat)
    requires Integrity(db) && i < |db| && m < |db[i].rows|
    ensures var c := Key(db[i].rows[m], ci);
      c.Some? ==>
        && ci < |db[i].schema.columns| && c.value.Canonical() && c.value.TypeOf() == db[i].schema.columns[ci].ty
  {
    assert TableOk(db[i]);
    assert RowOk(db[i].schema.columns, db[i].rows[m].1);
    if ci < |db[i].schema.columns| {
      assert CellOk(db[i].schema.columns[ci], db[i].rows[m].1[ci]);
    }
  }

  lemma {:induction false} SortElements(rows: Rows, ci: nat, asc: bool)
    ensures forall x :: x in SortRows(rows, ci, asc) <==> x in rows
  {
    if rows != [] {
      SortElements(rows[1..], ci, asc);
      PlaceElements(rows[0], SortRows(rows[1..], ci, asc), ci, asc);
      assert rows == [rows[0]] + rows[1..];
    }
  }

  /** Without a sort the list is the table's rows that have the filter's value, each once and in their order. */
  lemma ListedFilters(db: DB, table: Text, filter: Filter) returns (from: seq<nat>)
    requires FindTable(db, table).Some?
    ensures var rows, shown := db[FindTable(db, table).value].rows, Listed(db, table, filter, None);
      && Picked(rows, from, shown) && Rising(from)
      && forall p :: 0 <= p < |rows| ==>
           (p in from <==> Selected(db[FindTable(db, table).value].schema.columns, filter, rows[p].1))
  {
    hide FindTable, ColumnIndex;
    var t := db[FindTable(db, table).value];
    if filter.Some? && ColumnIndex(t.schema.columns, filter.value.0).Some? {
      from := MatchingOrder(t.rows, ColumnIndex(t.schema.columns, filter.value.0).value, filter.value.1);
    } else {
      from := seq(|t.rows|, k requires 0 <= k < |t.rows| => k);
      assert forall p :: 0 <= p < |t.rows| ==> from[p] == p;
    }
  }

  /** No filter, or one on a column that does not exist, lets every row through. */
  ghost predicate Selected(cols: seq<Column>, filter: Filter, row: Row) {
    filter.Some? && ColumnIndex(cols, filter.value.0).Some? ==>
      CellAt(row, ColumnIndex(cols, filter.value.0).value) == Some(filter.value.1)
  }

  function Later(from: seq<nat>): (r: seq<nat>)
    ensures |r| == |from| && forall k :: 0 <= k < |r| ==> r[k] == from[k] + 1
  {
    seq(|from|, k requires 0 <= k < |from| => from[k] + 1)
  }

  lemma LaterHas(from: seq<nat>, p: nat)
    ensures p > 0 ==> (p in Later(from) <==> p - 1 in from)
    ensures 0 !in Later(from)
  {
    if p > 0 && p - 1 in from {
      var k :| 0 <= k < |from| && from[k] == p - 1;
      assert Later(from)[k] == p;
    }
  }

  predicate Rising(from: seq<nat>) {
    forall j, k :: 0 <= j < k < |from| ==> from[j] < from[k]
  }

  /** `r` is the rows that stand at these places. */
  ghost predicate Picked(rows: Rows, from: seq<nat>, r: Rows) {
    |from| == |r| && forall k :: 0 <= k < |from| ==> from[k] < |rows| && r[k] == rows[from[k]]
  }

  lemma PickLater(rows: Rows, from: seq<nat>, r: Rows)
    requires rows != [] && Picked(rows[1..], from, r) && Rising(from)
    ensures Picked(rows, Later(from), r) && Rising(Later(from))
  {
  }

  lemma PickFirst(rows: Rows, from: seq<nat>, r: Rows)
    requires rows != [] && Picked(rows, from, r) && Rising(from) && 0 !in from
    ensures Picked(rows, [0] + from, [rows[0]] + r) && Rising([0] + from)
  {
  }

  lemma {:induction false} MatchingOrder(rows: Rows, ci: nat, key: Value) returns (from: seq<nat>)
    ensures Picked(rows, from, Matching(rows, ci, key)) && Rising(from)
    ensures forall p :: 0 <= p < |rows| ==> (p in from <==> CellAt(rows[p].1, ci) == Some(key))
  {
    hide CellAt, Later, Picked, Rising;
    if rows == [] {
      from := [];
      NothingPicked(rows);
    } else {
      var later := MatchingOrder(rows[1..], ci, key);
      var rest := Matching(rows[1..], ci, key);
      from := Later(later);
      PickLater(rows, later, rest);
      LaterHas(later, 0);
      if CellAt(rows[0].1, ci) == Some(key) {
        PickFirst(rows, from, rest);
        from := [0] + from;
      }
      forall p | 0 <= p < |rows|
        ensures p in from <==> CellAt(rows[p].1, ci) == Some(key)
      {
        LaterHas(later, p);
        assert p > 0 ==> rows[1..][p - 1] == rows[p];
      }
    }
  }

  lemma NothingPicked(rows: Rows)
    ensures Picked(rows, [], []) && Rising([])
  {
  }

  lemma StoredComparable(db: DB, i: nat, m: nat, ci: nat)
    requires Integrity(db) && i < |db| && m < |db[i].rows|
    ensures Comparable(Key(db[i].rows[m], ci))
  {
    assert TableOk(db[i]);
    assert RowOk(db[i].schema.columns, db[i].rows[m].1);
    if ci < |db[i].schema.columns| {
      assert CellOk(db[i].schema.columns[ci], db[i].rows[m].1[ci]);
    }
  }

  // ---- the cache ------------------------------------------------------------------------------------

  datatype Cached = Cached(table: Text, filter: Filter, sort: Sort, generation: u64, rows: Rows)

  /** What the cache holds is of this generation's database, or of an older generation. */
  ghost predicate CacheOk(c: Option<Cached>, db: DB, generation: u64) {
    c.Some? ==>
      && c.value.generation <= generation
      && (c.value.generation == generation ==> c.value.rows == Listed(db, c.value.table, c.value.filter, c.value.sort))
  }

  /** No operation makes the cache lie: one that took effect leaves it out of date, any other changed nothing. */
  lemma CacheKept(s: Store, failed: Option<StoreError>, want: Result<DB>, was: Before, c: Option<Cached>)
    requires s.Tried(failed, want, was) && (failed == Some(Io) ==> want.Failure?)
    requires CacheOk(c, was.db, was.sb.generation)
    ensures s.Valid() && CacheOk(c, s.db, s.heap.pager.sb.generation)
  {
    hide Listed, Store.Valid;
  }

  lemma StoreIntact(s: Store)
    requires s.Valid()
    ensures Integrity(s.db)
  {
    hide Integrity, Bears, DiskView, ChainHeap.Valid, Pager.Valid, Pager.Committed, Pager.Contents;
  }

  class Browser {
    const store: Store
    var rowCache: Option<Cached>

    ghost predicate Valid()
      reads this, store, store.heap, store.heap.pager, store.heap.pager.dev
    {
      store.Valid() && CacheOk(rowCache, store.db, store.heap.pager.sb.generation)
    }

    constructor (store: Store)
      requires store.Valid()
      ensures this.store == store && Valid()
    {
      this.store, rowCache := store, None;
    }

    method Rows(table: Text, filter: Filter, sort: Sort) returns (r: Rows)
      requires store.Valid()
      modifies store.heap.pager`cache
      ensures store.Valid() && store.Now() == old(store.Now()) && r == Listed(store.db, table, filter, sort)
    {
      hide Store.Valid, FindTable, ColumnIndex, Matching, SortRows;
      var scanned := Scan(store, table);
      var rows := if scanned.Success? then scanned.value else [];
      if filter.Some? {
        var t := GetTable(store, table);
        if t.Success? {
          var ci := ColumnIndex(t.value.columns, filter.value.0);
          if ci.Some? {
            rows := MatchingLoop(rows, ci.value, filter.value.1);
          }
        }
      }
      return SortedBy(rows, sort);
    }

    /** `cached_rows`: always what a fresh look at the store would list. */
    method CachedRows(table: Text, filter: Filter, sort: Sort) returns (r: Rows)
      requires Valid()
      modifies this`rowCache, store.heap.pager`cache
      ensures Valid() && store.Now() == old(store.Now()) && r == Listed(store.db, table, filter, sort)
    {
      hide Store.Valid, Listed;
      var generation := store.heap.pager.sb.generation;
      var fresh_ := rowCache.Some? && rowCache.value.table == table && rowCache.value.filter == filter
        && rowCache.value.sort == sort && rowCache.value.generation == generation;
      if !fresh_ {
        var rows := Rows(table, filter, sort);
        rowCache := Some(Cached(table, filter, sort, generation, rows));
      }
      return rowCache.value.rows;
    }

    // An edit through the browser does what the store's operation does, and the cached list never goes stale unnoticed.

    method Insert(table: Text, cells: Row) returns (r: Result<RowId>, ghost id: RowId)
      requires Valid() && StorableRow(cells) && store.heap.pager.sb.generation + 1 < 0x1_0000_0000_0000_0000
      modifies store, store.heap, store.heap.pager, store.heap.pager.dev
      ensures store.Tried(Failed(r), Relational.Insert(old(store.db), table, cells, id), old(store.Now()))
      ensures FreshId(old(store.db), table, id) && (r.Success? ==> r.value == id)
      ensures r != Failure(Io) ==> Valid()
    {
      hide Store.Valid, Listed, Relational.Insert, StorableRow, FreshId;
      ghost var was := store.Now();
      r, id := store.InsertRow(table, cells);
      if r != Failure(Io) {
        CacheKept(store, Failed(r), Relational.Insert(was.db, table, cells, id), was, rowCache);
      }
    }

    method Update(table: Text, id: RowId, cells: Row, ghost k: nat) returns (r: Result<()>)
      requires Valid() && StorableRow(cells) && store.Belongs(table, id, k)
      requires store.heap.pager.sb.generation + 1 < 0x1_0000_0000_0000_0000
      modifies store, store.heap, store.heap.pager, store.heap.pager.dev
      ensures store.Tried(Failed(r), Relational.Update(old(store.db), table, id, cells), old(store.Now()))
      ensures r != Failure(Io) ==> Valid()
    {
      hide Store.Valid, Store.Belongs, Integrity, Listed, Relational.Update, StorableRow;
      ghost var was := store.Now();
      StoreIntact(store);
      r := store.UpdateRow(table, id, cells, k);
      if r != Failure(Io) {
        CacheKept(store, Failed(r), Relational.Update(was.db, table, id, cells), was, rowCache);
      }
    }

    method Delete(table: Text, id: RowId, ghost k: nat) returns (r: Result<()>)
      requires Valid() && store.Belongs(table, id, k)
      requires store.heap.pager.sb.generation + 1 < 0x1_0000_0000_0000_0000
      modifies store, store.heap, store.heap.pager, store.heap.pager.dev
      ensures store.Tried(Failed(r), Relational.Delete(old(store.db), table, id), old(store.Now()))
      ensures r != Failure(Io) ==> Valid()
    {
      hide Store.Valid, Store.Belongs, Integrity, Listed, Relational.Delete;
      ghost var was := store.Now();
      StoreIntact(store);
      r := store.DeleteRow(table, id, k);
      if r != Failure(Io) {
        CacheKept(store, Failed(r), Relational.Delete(was.db, table, id), was, rowCache);
      }
    }
  }
}
