/** Row operations refuse no more than integrity demands. */
module Exact {
  import opened Errors
  import opened Bignum
  import opened Value
  import opened Codec
  import opened Schema
  import opened Chains
  import opened Relational
  import opened RowIntegrity
  import opened Effects

  /** What integrity of the database with `rows` in table `i` says of one of its keys. */
  lemma KeyThere(db: DB, i: nat, rows: Rows, a: nat, m: nat)
    requires Integrity(db) && i < |db| && Integrity(WithRows(db, i, rows)) && a < |db| && m < |db[a].schema.fks|
    ensures FindTable(db, db[a].schema.fks[m].toTable).Some?
    ensures var f, j := db[a].schema.fks[m], FindTable(db, db[a].schema.fks[m].toTable).value;
      && FkHolds(db[a], db[j], f)
      && FkHolds(WithRows(db, i, rows)[a], WithRows(db, i, rows)[j], f)
  {
    hide FkHolds, TableOk;
    var db' := WithRows(db, i, rows);
    OldKey(db, a, m);
    OldKey(db', a, m);
    SameNames(db, db', db[a].schema.fks[m].toTable);
  }

  lemma ValueAt(rows: Rows, ci: nat, v: Value, exclude: Option<RowId>) returns (p: nat)
    requires HasValue(rows, ci, v, exclude)
    ensures p < |rows| && Some(rows[p].0) != exclude && CellAt(rows[p].1, ci) == Some(v)
  {
    p :| 0 <= p < |rows| && Some(rows[p].0) != exclude && CellAt(rows[p].1, ci) == Some(v);
  }

  lemma TableThere(db: DB, i: nat)
    requires Integrity(db) && i < |db|
    ensures TableOk(db[i])
  {
  }

  /** A key's target column has no value twice. */
  lemma TargetUnique(db: DB, i: nat, a: nat, m: nat)
    requires Integrity(db) && i < |db| && a < |db| && m < |db[a].schema.fks|
    requires db[a].schema.fks[m].toTable == db[i].schema.name
    ensures FkHolds(db[a], db[i], db[a].schema.fks[m])
    ensures NoDuplicates(db[i].rows, ColumnIndex(db[i].schema.columns, db[a].schema.fks[m].toCol).value)
  {
    hide Integrity, NoDuplicates, ColumnIndex;
    TargetFound(db, i, a, m);
    TableThere(db, i);
  }

  // ---- update ------------------------------------------------------------------------------------

  lemma UpdateFits(db: DB, i: nat, k: nat, cells: Row)
    requires Integrity(db) && i < |db| && k < |db[i].rows|
    requires Integrity(WithRows(db, i, db[i].rows[k := (db[i].rows[k].0, cells)]))
    ensures var cols := db[i].schema.columns;
      && RowOk(cols, cells)
      && forall m :: 0 <= m < |cols| && cols[m].unique && cells[m].Some? ==>
           !HasValue(db[i].rows, m, cells[m].value, Some(db[i].rows[k].0))
  {
    hide Integrity, FksOk, CellOk, DistinctIds, Distinct;
    var t, id := db[i], db[i].rows[k].0;
    var rows' := t.rows[k := (id, cells)];
    TableThere(WithRows(db, i, rows'), i);
    assert RowOk(t.schema.columns, rows'[k].1);
    forall m | 0 <= m < |t.schema.columns| && t.schema.columns[m].unique && cells[m].Some?
      ensures !HasValue(t.rows, m, cells[m].value, Some(id))
    {
      assert NoDuplicates(rows', m);
      forall p | 0 <= p < |t.rows| && Some(t.rows[p].0) != Some(id)
        ensures CellAt(t.rows[p].1, m) != cells[m]
      {
        assert rows'[p] == t.rows[p] && CellAt(rows'[k].1, m) == cells[m];
      }
    }
  }

  lemma UpdateFinds(db: DB, i: nat, k: nat, cells: Row, m: nat)
    requires Integrity(db) && i < |db| && k < |db[i].rows| && m < |db[i].schema.fks|
    requires Integrity(WithRows(db, i, db[i].rows[k := (db[i].rows[k].0, cells)]))
    ensures KeyFound(db, i, cells, Some(db[i].rows[k].0), m)
  {
    hide Integrity, ColumnIndex, HasValue, FksOk;
    var t, id := db[i], db[i].rows[k].0;
    var rows' := t.rows[k := (id, cells)];
    KeyThere(db, i, rows', i, m);
    TableThere(db, i);
    var f := t.schema.fks[m];
    var j := FindTable(db, f.toTable).value;
    var fi, ti := ColumnIndex(t.schema.columns, f.fromCol).value, ColumnIndex(db[j].schema.columns, f.toCol).value;
    if CellAt(cells, fi).Some? {
      var dst := WithRows(db, i, rows')[j].rows;
      assert HasValue(dst, ti, CellAt(rows'[k].1, fi).value, None);
      var p := ValueAt(dst, ti, CellAt(cells, fi).value, None);
      var pending := if j == i then Some(id) else None;
      assert dst[p].1 == if Some(db[j].rows[p].0) == pending then cells else db[j].rows[p].1;
      assert HasTarget(db[j].rows, ti, CellAt(cells, fi).value, pending, cells);
    }
  }

  lemma UpdateFrees(db: DB, i: nat, k: nat, cells: Row, a: nat, m: nat)
    requires Integrity(db) && i < |db| && k < |db[i].rows| && a < |db| && m < |db[a].schema.fks|
    requires db[a].schema.fks[m].toTable == db[i].schema.name
    requires Integrity(WithRows(db, i, db[i].rows[k := (db[i].rows[k].0, cells)]))
    ensures NotNeeded(db, i, db[i].rows[k].0, db[i].rows[k].1, Some(cells), a, m)
  {
    hide Integrity, ColumnIndex, HasValue, FksOk;
    var t, id := db[i], db[i].rows[k].0;
    var rows' := t.rows[k := (id, cells)];
    TargetFound(db, i, a, m);
    TargetUnique(db, i, a, m);
    KeyThere(db, i, rows', a, m);
    var f := db[a].schema.fks[m];
    var fi, ti := ColumnIndex(db[a].schema.columns, f.fromCol).value, ColumnIndex(t.schema.columns, f.toCol).value;
    var key, skip := CellAt(t.rows[k].1, ti), if a == i then Some(id) else None;
    if key.Some? && CellAt(cells, ti) != key && HasValue(db[a].rows, fi, key.value, skip) {
      var q := ValueAt(db[a].rows, fi, key.value, skip);
      var src := WithRows(db, i, rows')[a].rows;
      assert src[q] == db[a].rows[q];
      assert HasValue(rows', ti, CellAt(src[q].1, fi).value, None);
      OneKey(t, k, cells, ti, key.value);
    }
  }

  /** A UNIQUE value that row `k` gives up is gone. */
  lemma OneKey(t: TableState, k: nat, cells: Row, ti: nat, key: Value)
    requires NoDuplicates(t.rows, ti) && k < |t.rows| && CellAt(t.rows[k].1, ti) == Some(key)
    requires CellAt(cells, ti) != Some(key)
    ensures !HasValue(t.rows[k := (t.rows[k].0, cells)], ti, key, None)
  {
  }

  /** An update of a row that exists is refused exactly when the database it would make lacks integrity. */
  lemma UpdateExact(db: DB, table: Text, id: RowId, cells: Row)
    requires Integrity(db) && (forall c :: c in cells ==> Storable(c)) && FindTable(db, table).Some?
    requires FindRow(db[FindTable(db, table).value].rows, id).Some?
    ensures var i := FindTable(db, table).value; var k := FindRow(db[i].rows, id).value;
      Update(db, table, id, cells).Success? <==> Integrity(WithRows(db, i, db[i].rows[k := (id, cells)]))
  {
    hide Integrity, FindTable, KeyFound, RowOk, HasValue, NotNeeded;
    var i := FindTable(db, table).value;
    var k := FindRow(db[i].rows, id).value;
    UpdateMeans(db, table, id, cells);
    if Update(db, table, id, cells).Success? {
      UpdateKeeps(db, table, id, cells);
    }
    if Integrity(WithRows(db, i, db[i].rows[k := (id, cells)])) {
      UpdateFits(db, i, k, cells);
      forall m | 0 <= m < |db[i].schema.fks|
        ensures KeyFound(db, i, cells, Some(id), m)
      {
        UpdateFinds(db, i, k, cells, m);
      }
      forall a, m | 0 <= a < |db| && 0 <= m < |db[a].schema.fks| &&
        db[a].schema.fks[m].toTable == db[i].schema.name
        ensures NotNeeded(db, i, id, db[i].rows[k].1, Some(cells), a, m)
      {
        UpdateFrees(db, i, k, cells, a, m);
      }
      assert Acceptable(db, i, cells, Some(id));
      assert Unneeded(db, i, id, db[i].rows[k].1, Some(cells));
    }
  }

  // ---- delete -------------------------------------------------------------------------------------

  lemma DeleteFrees(db: DB, i: nat, k: nat, a: nat, m: nat)
    requires Integrity(db) && i < |db| && k < |db[i].rows| && a < |db| && m < |db[a].schema.fks|
    requires db[a].schema.fks[m].toTable == db[i].schema.name
    requires Integrity(WithRows(db, i, Without(db[i].rows, k)))
    ensures NotNeeded(db, i, db[i].rows[k].0, db[i].rows[k].1, None, a, m)
  {
    hide Integrity, ColumnIndex, HasValue, FksOk;
    var t, id := db[i], db[i].rows[k].0;
    var rows' := Without(t.rows, k);
    TargetFound(db, i, a, m);
    TargetUnique(db, i, a, m);
    KeyThere(db, i, rows', a, m);
    var f := db[a].schema.fks[m];
    var fi, ti := ColumnIndex(db[a].schema.columns, f.fromCol).value, ColumnIndex(t.schema.columns, f.toCol).value;
    var key, skip := CellAt(t.rows[k].1, ti), if a == i then Some(id) else None;
    if key.Some? && HasValue(db[a].rows, fi, key.value, skip) {
      var q := ValueAt(db[a].rows, fi, key.value, skip);
      var src := WithRows(db, i, rows')[a].rows;
      var q' := if a == i && q > k then q - 1 else q;
      assert src[q'] == db[a].rows[q];
      assert HasValue(rows', ti, CellAt(src[q'].1, fi).value, None);
      GoneKey(t.rows, k, ti, key.value);
    }
  }

  lemma GoneKey(rows: Rows, k: nat, ti: nat, key: Value)
    requires NoDuplicates(rows, ti) && k < |rows| && CellAt(rows[k].1, ti) == Some(key)
    ensures !HasValue(Without(rows, k), ti, key, None)
  {
    var left := Without(rows, k);
    assert forall m :: 0 <= m < |left| ==> left[m] == rows[if m < k then m else m + 1];
  }

  /** A delete of a row that exists is refused exactly when the database it would make lacks integrity. */
  lemma DeleteExact(db: DB, table: Text, id: RowId)
    requires Integrity(db) && FindTable(db, table).Some?
    requires FindRow(db[FindTable(db, table).value].rows, id).Some?
    ensures var i := FindTable(db, table).value; var k := FindRow(db[i].rows, id).value;
      Delete(db, table, id).Success? <==> Integrity(WithRows(db, i, Without(db[i].rows, k)))
  {
    hide Integrity, FindTable, NotNeeded;
    var i := FindTable(db, table).value;
    var k := FindRow(db[i].rows, id).value;
    DeleteMeans(db, table, id);
    if Delete(db, table, id).Success? {
      DeleteKeeps(db, table, id);
    }
    if Integrity(WithRows(db, i, Without(db[i].rows, k))) {
      forall a, m | 0 <= a < |db| && 0 <= m < |db[a].schema.fks| &&
        db[a].schema.fks[m].toTable == db[i].schema.name
        ensures NotNeeded(db, i, id, db[i].rows[k].1, None, a, m)
      {
        DeleteFrees(db, i, k, a, m);
      }
      assert Unneeded(db, i, id, db[i].rows[k].1, None);
    }
  }

  // ---- insert -------------------------------------------------------------------------------------

  /** Key `m` of table `i` leads the new row to a row that was there before. */
  ghost predicate FindsOld(db: DB, i: nat, cells: Row, m: nat)
    requires i < |db| && m < |db[i].schema.fks|
  {
    var t, f := db[i].schema, db[i].schema.fks[m];
    f.toTable == t.name && ColumnIndex(t.columns, f.fromCol).Some? && ColumnIndex(t.columns, f.toCol).Some? ==>
      var fi, ti := ColumnIndex(t.columns, f.fromCol).value, ColumnIndex(t.columns, f.toCol).value;
      CellAt(cells, fi).Some? ==> HasValue(db[i].rows, ti, CellAt(cells, fi).value, None)
  }

  lemma InsertFits(db: DB, i: nat, id: RowId, cells: Row)
    requires Integrity(db) && i < |db| && Integrity(WithRows(db, i, db[i].rows + [(id, cells)]))
    ensures var cols := db[i].schema.columns;
      && RowOk(cols, cells)
      && forall m :: 0 <= m < |cols| && cols[m].unique && cells[m].Some? ==>
           !HasValue(db[i].rows, m, cells[m].value, None)
  {
    hide Integrity, FksOk, CellOk, DistinctIds, Distinct;
    var t := db[i];
    var rows' := t.rows + [(id, cells)];
    TableThere(WithRows(db, i, rows'), i);
    assert RowOk(t.schema.columns, rows'[|t.rows|].1);
    forall m | 0 <= m < |t.schema.columns| && t.schema.columns[m].unique && cells[m].Some?
      ensures !HasValue(t.rows, m, cells[m].value, None)
    {
      assert NoDuplicates(rows', m);
      forall p | 0 <= p < |t.rows|
        ensures CellAt(t.rows[p].1, m) != cells[m]
      {
        assert rows'[p] == t.rows[p] && CellAt(rows'[|t.rows|].1, m) == cells[m];
      }
    }
  }

  lemma InsertFinds(db: DB, i: nat, id: RowId, cells: Row, m: nat)
    requires Integrity(db) && i < |db| && m < |db[i].schema.fks|
    requires Integrity(WithRows(db, i, db[i].rows + [(id, cells)]))
    ensures KeyFound(db, i, cells, None, m) <==> FindsOld(db, i, cells, m)
  {
    hide Integrity, ColumnIndex, FksOk, TableOk;
    var t := db[i];
    var rows' := t.rows + [(id, cells)];
    KeyThere(db, i, rows', i, m);
    var f := t.schema.fks[m];
    var j := FindTable(db, f.toTable).value;
    var fi, ti := ColumnIndex(t.schema.columns, f.fromCol).value, ColumnIndex(db[j].schema.columns, f.toCol).value;
    TableIs(db, i, f.toTable);
    if CellAt(cells, fi).Some? {
      var v := CellAt(cells, fi).value;
      assert HasTarget(db[j].rows, ti, v, None, cells) <==> HasValue(db[j].rows, ti, v, None);
      if j != i {
        assert HasValue(db[j].rows, ti, CellAt(rows'[|t.rows|].1, fi).value, None);
      }
    }
  }

  lemma TableIs(db: DB, i: nat, name: Text)
    requires Integrity(db) && i < |db|
    ensures FindTable(db, name) == Some(i) <==> db[i].schema.name == name
  {
    hide TableOk, FksOk;
    FindDistinct(db, i);
  }

  /** An insert is refused exactly when the database it would make lacks integrity, or has it only because the new row
      refers to itself: a reference must find a row that was there before. */
  lemma InsertExact(db: DB, table: Text, cells: Row, id: RowId)
    requires Integrity(db) && (forall c :: c in cells ==> Storable(c)) && FindTable(db, table).Some?
    requires FreshId(db, table, id)
    ensures var i := FindTable(db, table).value;
      Insert(db, table, cells, id).Success? <==>
        && Integrity(WithRows(db, i, db[i].rows + [(id, cells)]))
        && forall m :: 0 <= m < |db[i].schema.fks| ==> FindsOld(db, i, cells, m)
  {
    hide Integrity, FindTable, KeyFound, RowOk, HasValue, FindsOld, FindRow;
    var i := FindTable(db, table).value;
    InsertMeans(db, table, cells, id);
    if Insert(db, table, cells, id).Success? {
      InsertKeeps(db, table, cells, id);
    }
    if Integrity(WithRows(db, i, db[i].rows + [(id, cells)])) {
      InsertFits(db, i, id, cells);
      forall m | 0 <= m < |db[i].schema.fks|
        ensures KeyFound(db, i, cells, None, m) <==> FindsOld(db, i, cells, m)
      {
        InsertFinds(db, i, id, cells, m);
      }
      assert Acceptable(db, i, cells, None) <==> forall m :: 0 <= m < |db[i].schema.fks| ==> FindsOld(db, i, cells, m);
    }
  }

  /** A table whose rows name a parent row. */
  function FamilyTable(): Table {
    Table([116],
      [Column([105], TUnsigned, false, true, None), Column([112], TUnsigned, true, false, None)],
      [ForeignKey([102], [112], [116], [105])], [])
  }

  /** A row that is its own parent is refused, although the database with it would have integrity. */
  lemma OwnParentRefused()
    ensures var zero := Some(Unsigned(BigUint([])));
      var db, cells, id := [TableState(FamilyTable(), [])], [zero, zero], RowId(0, 0);
      && Integrity(db) && Integrity(WithRows(db, 0, [(id, cells)]))
      && Insert(db, [116], cells, id) == Failure(ForeignKeyViolation([102]))
  {
    var zero := Some(Unsigned(BigUint([])));
    var cells, id := [zero, zero], RowId(0, 0);
    var t := FamilyTable();
    var was, now := TableState(t, []), TableState(t, [(id, cells)]);
    assert t.columns[0].name == [105] && t.columns[1].name == [112];
    FamilyColumns(t.columns);
    assert FkHolds(was, was, t.fks[0]);
    assert CellAt(now.rows[0].1, 0) == zero && HasValue(now.rows, 0, zero.value, None);
    assert FkHolds(now, now, t.fks[0]);
    ZeroStored();
    assert RowOk(t.columns, cells);
    assert TableOk(was) && TableOk(now);
    assert FindTable([was], [116]) == Some(0) && FindTable([now], [116]) == Some(0);
    assert FksOk([was], was) && FksOk([now], now);
    assert Validate([was], 0, cells, None) == CheckFks([was], 0, cells, None, 0) by {
      FamilyCells(t.columns, cells);
    }
  }

  lemma FamilyColumns(cols: seq<Column>)
    requires cols == FamilyTable().columns
    ensures ColumnIndex(cols, [105]) == Some(0) && ColumnIndex(cols, [112]) == Some(1)
  {
    assert cols[1..][0] == cols[1];
  }

  lemma FamilyCells(cols: seq<Column>, cells: Row)
    requires cols == FamilyTable().columns && cells == [Some(Unsigned(BigUint([]))), Some(Unsigned(BigUint([])))]
    ensures CheckCells(cols, cells, 0).Success? && CheckUnique(cols, [], cells, None, 0).Success?
  {
    CellsChecked(cols, cells, 0);
    UniqueChecked(cols, [], cells, None, 0);
  }

  lemma ZeroStored()
    ensures Storable(Some(Unsigned(BigUint([]))))
  {
    assert ValueText(Unsigned(BigUint([]))) == UintText(BigUint([]));
  }
}
