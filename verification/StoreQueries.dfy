/** Reading the store: what a query returns is what the database holds. */
module StoreQueries {
  import opened Errors
  import opened Bytes
  import opened Bignum
  import opened Value
  import opened Codec
  import opened Schema
  import opened Pager
  import opened Chains
  import opened ChainStore
  import opened Relational
  import opened RowIntegrity
  import opened StoreModel
  import opened StoreSteps
  import opened Store

  /** `get_table`. */
  method GetTable(s: Store, name: Text) returns (r: Result<Table>)
    requires s.Valid()
    modifies s.heap.pager`cache
    ensures s.Valid() && s.Now() == old(s.Now())
    ensures r ==
      match FindTable(s.db, name)
      case None => Failure(NotFound("table"))
      case Some(i) => Success(s.db[i].schema)
  {
    hide Body, ChainHeap.InHand, Store.Anchored, FindTable, Store.Valid;
    var place := s.Locate(name);
    if place.Failure? { return Failure(place.error); }
    return Success(place.value.2);
  }

  datatype TableInfo = TableInfo(name: Text, columns: nat, rows: u64)

  /** `list_tables`: the row counts kept in the catalog are the numbers of live rows. */
  method ListTables(s: Store) returns (r: seq<TableInfo>)
    requires s.Valid()
    modifies s.heap.pager`cache
    ensures s.Valid() && s.Now() == old(s.Now())
    ensures |r| == |s.db|
    ensures forall i :: 0 <= i < |r| ==>
      && r[i].name == s.db[i].schema.name && r[i].columns == |s.db[i].schema.columns|
      && r[i].rows == |s.db[i].rows|
  {
    hide Body, ChainHeap.InHand, Store.Anchored, EncodeTable, EncodableTable, RowsHold, Entries, TableHolds;
    var cat := s.Catalog();
    r := [];
    for i := 0 to |cat|
      invariant s.Valid() && s.On(s.cat, s.db, s.tag) && s.Now() == old(s.Now()) && |r| == i
      invariant forall k :: 0 <= k < i ==>
        && r[k].name == s.db[k].schema.name && r[k].columns == |s.db[k].schema.columns|
        && r[k].rows == |s.db[k].rows|
    {
      BodyTable(s.heap.layout.blobs - {s.heap.pager.sb.catalogHead}, s.heap.layout.indexes, s.cat, s.db, s.tag, i);
      var t := s.SchemaOf(cat[i], s.cat, s.db, s.tag, i);
      r := r + [TableInfo(cat[i].name, |t.value.columns|, cat[i].rowCount)];
    }
  }

  /** `scan`: every live row with its handle, in the order the rows were inserted. */
  method Scan(s: Store, name: Text) returns (r: Result<Rows>)
    requires s.Valid()
    modifies s.heap.pager`cache
    ensures s.Valid() && s.Now() == old(s.Now())
    ensures r ==
      match FindTable(s.db, name)
      case None => Failure(NotFound("table"))
      case Some(i) => Success(s.db[i].rows)
  {
    hide Body, ChainHeap.InHand, Integrity, FindTable, Store.Anchored, Fitted;
    var place := s.Locate(name);
    if place.Failure? { return Failure(place.error); }
    var i := place.value.1;
    var rows := s.RowsOf(place.value.0[i], s.cat, s.db, s.tag, i);
    var out: Rows := [];
    s.KeptIntegrity();
    TableRows(s.db, i);
    for k := 0 to |rows.value|
      invariant s.Valid() && s.Now() == old(s.Now()) && out == rows.value[..k]
    {
      FittedSame(rows.value[k].1, |place.value.2.columns|);
      out := out + [(rows.value[k].0, Fitted(rows.value[k].1, |place.value.2.columns|))];
    }
    assert rows.value[..|rows.value|] == rows.value;
    return Success(out);
  }

  function RowOf(db: DB, name: Text, id: RowId): Result<Row> {
    match FindTable(db, name)
    case None => Failure(NotFound("table"))
    case Some(i) =>
      match FindRow(db[i].rows, id)
      case None => Failure(NotFound("row"))
      case Some(p) => Success(db[i].rows[p].1)
  }

  /** `get_row`. */
  method GetRow(s: Store, name: Text, id: RowId, ghost k: nat) returns (r: Result<Row>)
    requires s.Valid() && s.Belongs(name, id, k)
    modifies s.heap.pager`cache
    ensures s.Valid() && s.Now() == old(s.Now())
    ensures r == RowOf(s.db, name, id)
  {
    hide Body, ChainHeap.InHand, Integrity, FindTable, FindRow, CatIndex, Store.Anchored, Fitted;
    var place := s.Locate(name);
    if place.Failure? { return Failure(place.error); }
    var cat, i, t := place.value.0, place.value.1, place.value.2;
    BodyIndex(s.heap.layout.blobs - {s.heap.pager.sb.catalogHead}, s.heap.layout.indexes, s.cat, s.db, s.tag, name);
    s.KeptIntegrity();
    TableRows(s.db, i);
    var row := s.RowAt(cat, i, id, |t.columns|, k, s.db, s.tag);
    if row.Failure? { return Failure(NotFound("row")); }
    FittedSame(s.db[i].rows[FindRow(s.db[i].rows, id).value].1, |t.columns|);
    return Success(row.value.1);
  }

  /** The rows with `key` in column `ci`. */
  function Matching(rows: Rows, ci: nat, key: Value): (r: Rows)
    ensures forall x :: x in r <==> x in rows && CellAt(x.1, ci) == Some(key)
  {
    if rows == [] then []
    else if CellAt(rows[0].1, ci) == Some(key) then [rows[0]] + Matching(rows[1..], ci, key)
    else Matching(rows[1..], ci, key)
  }

  method MatchingLoop(rows: Rows, ci: nat, key: Value) returns (r: Rows)
    ensures r == Matching(rows, ci, key)
  {
    hide CellAt;
    r := [];
    for k := 0 to |rows|
      invariant r + Matching(rows[k..], ci, key) == Matching(rows, ci, key)
    {
      assert rows[k..][1..] == rows[k + 1..];
      if CellAt(rows[k].1, ci) == Some(key) {
        assert r + ([rows[k]] + Matching(rows[k + 1..], ci, key)) == r + [rows[k]] + Matching(rows[k + 1..], ci, key);
        r := r + [rows[k]];
      }
    }
    assert r + [] == r;
  }

  lemma {:induction false} NoMatch(rows: Rows, ci: nat, key: Value)
    requires forall k :: 0 <= k < |rows| ==> CellAt(rows[k].1, ci) != Some(key)
    ensures Matching(rows, ci, key) == []
  {
    if rows != [] {
      NoMatch(rows[1..], ci, key);
    }
  }

  /** A value that stands once in a column is matched by one row. */
  lemma {:induction false} OneMatch(rows: Rows, ci: nat, key: Value)
    requires NoDuplicates(rows, ci)
    ensures |Matching(rows, ci, key)| == if HasValue(rows, ci, key, None) then 1 else 0
  {
    if rows != [] {
      var rest := rows[1..];
      assert rows == [rows[0]] + rest;
      if CellAt(rows[0].1, ci) == Some(key) {
        NoMatch(rest, ci, key);
      } else {
        assert forall k :: 0 <= k < |rest| ==> rest[k] == rows[k + 1];
        OneMatch(rest, ci, key);
        if HasValue(rows, ci, key, None) {
          var m :| 0 <= m < |rows| && CellAt(rows[m].1, ci) == Some(key);
          assert rest[m - 1] == rows[m];
        }
      }
    }
  }

  /** The first foreign key of that name. */
  function FindFk(fks: seq<ForeignKey>, name: Text): (r: Option<nat>)
    ensures r.Some? ==> r.value < |fks| && fks[r.value].name == name
    ensures r.None? ==> forall k :: 0 <= k < |fks| ==> fks[k].name != name
  {
    if fks == [] then None
    else if fks[0].name == name then Some(0)
    else
      match FindFk(fks[1..], name)
      case None => None
      case Some(k) => Some(k + 1)
  }

  /** What following key `m` from row `p` of table `i` finds. */
  ghost function Followed(db: DB, i: nat, p: nat, m: nat): (Text, Rows)
    requires Integrity(db) && i < |db| && p < |db[i].rows| && m < |db[i].schema.fks|
  {
    OldKey(db, i, m);
    var f := db[i].schema.fks[m];
    var j := FindTable(db, f.toTable).value;
    var cell := CellAt(db[i].rows[p].1, ColumnIndex(db[i].schema.columns, f.fromCol).value);
    (f.toTable,
     if cell.None? then [] else Matching(db[j].rows, ColumnIndex(db[j].schema.columns, f.toCol).value, cell.value))
  }

  /** A non-NULL reference leads to exactly one row, a NULL one to none. */
  lemma FollowedOne(db: DB, i: nat, p: nat, m: nat)
    requires Integrity(db) && i < |db| && p < |db[i].rows| && m < |db[i].schema.fks|
    ensures ColumnIndex(db[i].schema.columns, db[i].schema.fks[m].fromCol).Some?
    ensures |Followed(db, i, p, m).1| ==
      if CellAt(db[i].rows[p].1, ColumnIndex(db[i].schema.columns, db[i].schema.fks[m].fromCol).value).Some?
      then 1 else 0
  {
    hide ColumnIndex, Matching;
    OldKey(db, i, m);
    var f := db[i].schema.fks[m];
    var j := FindTable(db, f.toTable).value;
    var ti := ColumnIndex(db[j].schema.columns, f.toCol).value;
    var cell := CellAt(db[i].rows[p].1, ColumnIndex(db[i].schema.columns, f.fromCol).value);
    if cell.Some? {
      assert TableOk(db[j]) && NoDuplicates(db[j].rows, ti);
      assert HasValue(db[j].rows, ti, cell.value, None);
      OneMatch(db[j].rows, ti, cell.value);
    }
  }

  /** `follow_fk`: the look-ups that the code takes for granted cannot fail. */
  method FollowFk(s: Store, table: Text, id: RowId, fkName: Text, ghost k: nat) returns (r: Result<(Text, Rows)>)
    requires s.Valid() && s.Belongs(table, id, k)
    modifies s.heap.pager`cache
    ensures s.Valid() && s.Now() == old(s.Now())
    ensures r.Success? <==>
      && FindTable(s.db, table).Some? && var t := s.db[FindTable(s.db, table).value];
        FindFk(t.schema.fks, fkName).Some? && FindRow(t.rows, id).Some?
    ensures r.Success? ==>
      var i := FindTable(s.db, table).value;
      && s.Anchored()
      && r.value == Followed(s.db, i, FindRow(s.db[i].rows, id).value, FindFk(s.db[i].schema.fks, fkName).value)
    ensures r.Failure? ==> r.error.NotFound?
  {
    hide Body, ChainHeap.InHand, Integrity, FindTable, FindRow, FindFk, CatIndex, ColumnIndex, CellAt, Matching,
      Matched, Store.Anchored;
    var place := s.Locate(table);
    if place.Failure? { return Failure(place.error); }
    var cat, i, t := place.value.0, place.value.1, place.value.2;
    var m := FindFk(t.fks, fkName);
    if m.None? { return Failure(NotFound("foreign key")); }
    var f := t.fks[m.value];
    BodyIndex(s.heap.layout.blobs - {s.heap.pager.sb.catalogHead}, s.heap.layout.indexes, s.cat, s.db, s.tag, table);
    BodyIndex(s.heap.layout.blobs - {s.heap.pager.sb.catalogHead}, s.heap.layout.indexes, s.cat, s.db, s.tag,
      f.toTable);
    s.KeptIntegrity();
    OldKey(s.db, i, m.value);
    var fci := ColumnIndex(t.columns, f.fromCol).value;
    TableRows(s.db, i);
    var row := s.RowAt(cat, i, id, |t.columns|, k, s.db, s.tag);
    if row.Failure? { return Failure(NotFound("row")); }
    FittedSame(s.db[i].rows[FindRow(s.db[i].rows, id).value].1, |t.columns|);
    var key := CellAt(row.value.1, fci);
    var matches: Rows := [];
    if key.Some? {
      var j := CatIndex(cat, f.toTable);
      var tt := s.SchemaOf(cat[j.value], s.cat, s.db, s.tag, j.value);
      var tci := ColumnIndex(tt.value.columns, f.toCol).value;
      var rows := s.RowsOf(cat[j.value], s.cat, s.db, s.tag, j.value);
      matches := MatchingLoop(rows.value, tci, key.value);
    }
    return Success((f.toTable, matches));
  }
}
