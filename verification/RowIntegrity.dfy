/** Row operations keep relational integrity. */
module RowIntegrity {
  import opened Errors
  import opened Bignum
  import opened Value
  import opened Codec
  import opened Schema
  import opened Chains
  import opened Relational

  // ---- replacing one table -----------------------------------------------------------------

  lemma {:induction false} SameNames(a: DB, b: DB, name: Text)
    requires |a| == |b| && forall i :: 0 <= i < |a| ==> a[i].schema.name == b[i].schema.name
    ensures FindTable(a, name) == FindTable(b, name)
  {
    if a != [] {
      assert a[0].schema.name == b[0].schema.name;
      forall i | 0 <= i < |a| - 1
        ensures a[1..][i].schema.name == b[1..][i].schema.name
      {
        assert a[i + 1].schema.name == b[i + 1].schema.name;
      }
      SameNames(a[1..], b[1..], name);
    }
  }

  /** The keys into table `i` from the other tables hold towards its replacement. */
  ghost predicate IncomingHold(db: DB, i: nat, t: TableState)
    requires i < |db|
  {
    forall a, k :: 0 <= a < |db| && a != i && 0 <= k < |db[a].schema.fks| &&
      db[a].schema.fks[k].toTable == db[i].schema.name
      ==> FkHolds(db[a], t, db[a].schema.fks[k])
  }

  /** The keys of the replacement hold, towards itself or the other tables. */
  ghost predicate OutgoingHold(db: DB, i: nat, t: TableState)
    requires i < |db|
  {
    forall k :: 0 <= k < |t.schema.fks| ==>
      && FindTable(db, t.schema.fks[k].toTable).Some?
      && var j := FindTable(db, t.schema.fks[k].toTable).value; FkHolds(t, if j == i then t else db[j], t.schema.fks[k])
  }

  lemma ReplaceOk(db: DB, i: nat, t: TableState)
    requires Integrity(db) && i < |db| && t.schema.name == db[i].schema.name
    requires TableOk(t) && IncomingHold(db, i, t) && OutgoingHold(db, i, t)
    ensures Integrity(db[i := t])
  {
    hide TableOk, FkHolds;
    var db' := db[i := t];
    forall a | 0 <= a < |db|
      ensures FksOk(db', db'[a])
    {
      forall k | 0 <= k < |db'[a].schema.fks|
        ensures FkOk(db', db'[a], db'[a].schema.fks[k])
      {
        var f := db'[a].schema.fks[k];
        SameNames(db, db', f.toTable);
        if a != i {
          assert FksOk(db, db[a]);
          assert FkOk(db, db[a], f);
        }
      }
    }
  }

  /** The keys that already held, for an unchanged rest of the database. */
  lemma OldKey(db: DB, i: nat, k: nat)
    requires Integrity(db) && i < |db| && k < |db[i].schema.fks|
    ensures FindTable(db, db[i].schema.fks[k].toTable).Some?
    ensures FkHolds(db[i], db[FindTable(db, db[i].schema.fks[k].toTable).value], db[i].schema.fks[k])
  {
    assert FksOk(db, db[i]);
    assert FkOk(db, db[i], db[i].schema.fks[k]);
  }

  // ---- what validation and restriction establish ---------------------------------------------

  lemma {:induction false} CellsChecked(cols: seq<Column>, cells: Row, k: nat)
    requires |cells| == |cols| && k <= |cols|
    ensures CheckCells(cols, cells, k).Success? <==>
      forall m :: k <= m < |cols| ==> if cells[m].None? then cols[m].nullable else cells[m].value.TypeOf() == cols[m].ty
    decreases |cols| - k
  {
    if k < |cols| {
      CellsChecked(cols, cells, k + 1);
    }
  }

  lemma {:induction false} UniqueChecked(cols: seq<Column>, rows: Rows, cells: Row, exclude: Option<RowId>, k: nat)
    requires |cells| == |cols| && k <= |cols|
    ensures CheckUnique(cols, rows, cells, exclude, k).Success? <==>
      forall m :: k <= m < |cols| && cols[m].unique && cells[m].Some? ==> !HasValue(rows, m, cells[m].value, exclude)
    decreases |cols| - k
  {
    if k < |cols| {
      UniqueChecked(cols, rows, cells, exclude, k + 1);
    }
  }

  /** The `m`-th foreign key finds the new cells' value. */
  ghost predicate KeyFound(db: DB, ti: nat, cells: Row, exclude: Option<RowId>, m: nat)
    requires ti < |db| && m < |db[ti].schema.fks|
  {
    var t := db[ti].schema;
    var fi, tj := ColumnIndex(t.columns, t.fks[m].fromCol), FindTable(db, t.fks[m].toTable);
    && fi.Some?
    && (CellAt(cells, fi.value).Some? ==>
          && tj.Some? && ColumnIndex(db[tj.value].schema.columns, t.fks[m].toCol).Some?
          && HasTarget(db[tj.value].rows, ColumnIndex(db[tj.value].schema.columns, t.fks[m].toCol).value,
                       CellAt(cells, fi.value).value, if tj.value == ti then exclude else None, cells))
  }

  lemma {:induction false} FksChecked(db: DB, ti: nat, cells: Row, exclude: Option<RowId>, k: nat)
    requires ti < |db| && |cells| == |db[ti].schema.columns| && k <= |db[ti].schema.fks|
    ensures CheckFks(db, ti, cells, exclude, k).Success? <==>
      forall m :: k <= m < |db[ti].schema.fks| ==> KeyFound(db, ti, cells, exclude, m)
    decreases |db[ti].schema.fks| - k
  {
    if k < |db[ti].schema.fks| {
      FksChecked(db, ti, cells, exclude, k + 1);
      FkStep(db, ti, cells, exclude, k);
    }
  }

  lemma FkStep(db: DB, ti: nat, cells: Row, exclude: Option<RowId>, k: nat)
    requires ti < |db| && |cells| == |db[ti].schema.columns| && k < |db[ti].schema.fks|
    ensures CheckFks(db, ti, cells, exclude, k).Success? <==>
      KeyFound(db, ti, cells, exclude, k) && CheckFks(db, ti, cells, exclude, k + 1).Success?
  {
    hide HasTarget;
  }

  /** `Validate` accepts exactly the rows that fit the schema, repeat no UNIQUE value and refer to what exists. */
  lemma ValidateMeans(db: DB, ti: nat, cells: Row, exclude: Option<RowId>)
    requires ti < |db| && forall c :: c in cells ==> Storable(c)
    ensures var t := db[ti].schema;
      Validate(db, ti, cells, exclude).Success? <==>
        && RowOk(t.columns, cells)
        && (forall m :: 0 <= m < |t.columns| && t.columns[m].unique && cells[m].Some? ==>
              !HasValue(db[ti].rows, m, cells[m].value, exclude))
        && (forall m :: 0 <= m < |t.fks| ==> KeyFound(db, ti, cells, exclude, m))
  {
    hide HasValue, KeyFound;
    var cols := db[ti].schema.columns;
    if |cells| == |cols| {
      CellsChecked(cols, cells, 0);
      UniqueChecked(cols, db[ti].rows, cells, exclude, 0);
      FksChecked(db, ti, cells, exclude, 0);
    }
  }

  /** No other row needs the value that row `id` of table `i` gives up under key `k` of table `j`. */
  ghost predicate NotNeeded(db: DB, i: nat, id: RowId, row: Row, cells: Option<Row>, j: nat, k: nat)
    requires Integrity(db) && i < |db| && j < |db| && k < |db[j].schema.fks|
    requires db[j].schema.fks[k].toTable == db[i].schema.name
  {
    TargetFound(db, i, j, k);
    var tci := ColumnIndex(db[i].schema.columns, db[j].schema.fks[k].toCol).value;
    var fci := ColumnIndex(db[j].schema.columns, db[j].schema.fks[k].fromCol).value;
    var key := CellAt(row, tci);
    key.Some? && !(cells.Some? && CellAt(cells.value, tci) == key) ==>
      !HasValue(db[j].rows, fci, key.value, if j == i then Some(id) else None)
  }

  lemma {:induction false} RestrictFksMeans(db: DB, i: nat, id: RowId, row: Row, cells: Option<Row>, j: nat, k: nat)
    requires Integrity(db) && i < |db| && j < |db| && k <= |db[j].schema.fks|
    ensures RestrictFks(db, i, id, row, cells, j, k).None? <==>
      forall m :: k <= m < |db[j].schema.fks| && db[j].schema.fks[m].toTable == db[i].schema.name ==>
        NotNeeded(db, i, id, row, cells, j, m)
    decreases |db[j].schema.fks| - k
  {
    hide Integrity, HasValue;
    if k < |db[j].schema.fks| {
      RestrictFksMeans(db, i, id, row, cells, j, k + 1);
      if db[j].schema.fks[k].toTable == db[i].schema.name {
        TargetFound(db, i, j, k);
      }
    }
  }

  /** A change is blocked exactly when some other row still needs a value it takes away. */
  lemma {:induction false} RestrictMeans(db: DB, i: nat, id: RowId, row: Row, cells: Option<Row>, j: nat)
    requires Integrity(db) && i < |db| && j <= |db|
    ensures Restrict(db, i, id, row, cells, j).None? <==>
      forall a, m ::
        j <= a < |db| && 0 <= m < |db[a].schema.fks| && db[a].schema.fks[m].toTable == db[i].schema.name ==>
        NotNeeded(db, i, id, row, cells, a, m)
    decreases |db| - j
  {
    hide Integrity, NotNeeded, RestrictFks;
    if j < |db| {
      RestrictFksMeans(db, i, id, row, cells, j, 0);
      RestrictMeans(db, i, id, row, cells, j + 1);
    }
  }

  // ---- rows --------------------------------------------------------------------------------------

  /** Every value `dst` had in the column is still there. */
  lemma MatchedGrow(src: Rows, fi: nat, dst: Rows, dst': Rows, ti: nat)
    requires Matched(src, fi, dst, ti)
    requires forall v :: HasValue(dst, ti, v, None) ==> HasValue(dst', ti, v, None)
    ensures Matched(src, fi, dst', ti)
  {
  }

  lemma ValueKept(rows: Rows, extra: (RowId, Row), ti: nat)
    ensures forall v :: HasValue(rows, ti, v, None) ==> HasValue(rows + [extra], ti, v, None)
  {
    forall v | HasValue(rows, ti, v, None)
      ensures HasValue(rows + [extra], ti, v, None)
    {
      var k :| 0 <= k < |rows| && CellAt(rows[k].1, ti) == Some(v);
      assert (rows + [extra])[k] == rows[k];
    }
  }

  lemma Absent(rows: Rows, ci: nat, v: Value, exclude: Option<RowId>, k: nat)
    requires !HasValue(rows, ci, v, exclude) && k < |rows| && Some(rows[k].0) != exclude
    ensures CellAt(rows[k].1, ci) != Some(v)
  {
  }

  lemma InsertTableOk(t: TableState, id: RowId, cells: Row)
    requires TableOk(t) && RowOk(t.schema.columns, cells) && FindRow(t.rows, id).None?
    requires forall m :: 0 <= m < |t.schema.columns| && t.schema.columns[m].unique && cells[m].Some? ==>
      !HasValue(t.rows, m, cells[m].value, None)
    ensures TableOk(t.(rows := t.rows + [(id, cells)]))
  {
    hide CellOk, ColumnIndex, Distinct;
    var rows := t.rows + [(id, cells)];
    forall ci | 0 <= ci < |t.schema.columns| && t.schema.columns[ci].unique
      ensures NoDuplicates(rows, ci)
    {
      assert NoDuplicates(t.rows, ci);
      forall j, k | 0 <= j < k < |rows| && CellAt(rows[j].1, ci).Some?
        ensures CellAt(rows[j].1, ci) != CellAt(rows[k].1, ci)
      {
        if k == |t.rows| && cells[ci].Some? {
          Absent(t.rows, ci, cells[ci].value, None, j);
        }
      }
    }
  }

  lemma InsertFk(src: TableState, dst: TableState, f: ForeignKey, id: RowId, cells: Row, own: bool)
    requires FkHolds(src, dst, f) && (own ==> dst == src)
    requires var fi, ti := ColumnIndex(src.schema.columns, f.fromCol).value,
      ColumnIndex(dst.schema.columns, f.toCol).value;
      CellAt(cells, fi).Some? ==> HasTarget(dst.rows, ti, CellAt(cells, fi).value, None, cells)
    ensures var src' := src.(rows := src.rows + [(id, cells)]); FkHolds(src', if own then src' else dst, f)
  {
    hide CellOk, ColumnIndex;
    var fi, ti := ColumnIndex(src.schema.columns, f.fromCol).value, ColumnIndex(dst.schema.columns, f.toCol).value;
    var rows := src.rows + [(id, cells)];
    if CellAt(cells, fi).Some? {
      var v := CellAt(cells, fi).value;
      var k :| 0 <= k < |dst.rows| && CellAt(dst.rows[k].1, ti) == Some(v);
      assert HasValue(dst.rows, ti, v, None);
    }
    assert Matched(rows, fi, dst.rows, ti);
    ValueKept(dst.rows, (id, cells), ti);
    MatchedGrow(rows, fi, dst.rows, dst.rows + [(id, cells)], ti);
  }

  lemma InsertKeeps(db: DB, table: Text, cells: Row, id: RowId)
    requires Integrity(db) && Insert(db, table, cells, id).Success?
    requires (forall c :: c in cells ==> Storable(c)) && FindRow(db[FindTable(db, table).value].rows, id).None?
    ensures Integrity(Insert(db, table, cells, id).value)
  {
    hide Validate, FkHolds, ColumnIndex, TableOk, CellOk, RowOk, HasValue, HasTarget;
    var i := FindTable(db, table).value;
    var t := db[i];
    var t' := t.(rows := t.rows + [(id, cells)]);
    ValidateMeans(db, i, cells, None);
    InsertTableOk(t, id, cells);
    forall a, k | 0 <= a < |db| && a != i && 0 <= k < |db[a].schema.fks| && db[a].schema.fks[k].toTable == t.schema.name
      ensures FkHolds(db[a], t', db[a].schema.fks[k])
    {
      TargetFound(db, i, a, k);
      GrownTarget(db[a], t, db[a].schema.fks[k], (id, cells));
    }
    forall k | 0 <= k < |t.schema.fks|
      ensures FindTable(db, t.schema.fks[k].toTable).Some?
      ensures var j := FindTable(db, t.schema.fks[k].toTable).value;
        FkHolds(t', if j == i then t' else db[j], t.schema.fks[k])
    {
      OldKey(db, i, k);
      assert KeyFound(db, i, cells, None, k);
      var j := FindTable(db, t.schema.fks[k].toTable).value;
      FkColumns(t, db[j], t.schema.fks[k]);
      InsertFk(t, db[j], t.schema.fks[k], id, cells, j == i);
    }
    ReplaceOk(db, i, t');
  }

  lemma FkColumns(src: TableState, dst: TableState, f: ForeignKey)
    requires FkHolds(src, dst, f)
    ensures ColumnIndex(src.schema.columns, f.fromCol).Some? && ColumnIndex(dst.schema.columns, f.toCol).Some?
  {
  }

  lemma GrownTarget(src: TableState, dst: TableState, f: ForeignKey, extra: (RowId, Row))
    requires FkHolds(src, dst, f)
    ensures FkHolds(src, dst.(rows := dst.rows + [extra]), f)
  {
    hide ColumnIndex;
    var fi, ti := ColumnIndex(src.schema.columns, f.fromCol).value, ColumnIndex(dst.schema.columns, f.toCol).value;
    ValueKept(dst.rows, extra, ti);
    MatchedGrow(src.rows, fi, dst.rows, dst.rows + [extra], ti);
  }

  // ---- update and delete -----------------------------------------------------------------------------

  lemma UpdateTableOk(t: TableState, k: nat, cells: Row)
    requires TableOk(t) && RowOk(t.schema.columns, cells) && k < |t.rows|
    requires forall m :: 0 <= m < |t.schema.columns| && t.schema.columns[m].unique && cells[m].Some? ==>
      !HasValue(t.rows, m, cells[m].value, Some(t.rows[k].0))
    ensures TableOk(t.(rows := t.rows[k := (t.rows[k].0, cells)]))
  {
    hide CellOk, ColumnIndex, Distinct;
    var rows := t.rows[k := (t.rows[k].0, cells)];
    forall ci | 0 <= ci < |t.schema.columns| && t.schema.columns[ci].unique
      ensures NoDuplicates(rows, ci)
    {
      assert NoDuplicates(t.rows, ci);
      forall a, b | 0 <= a < b < |rows| && CellAt(rows[a].1, ci).Some?
        ensures CellAt(rows[a].1, ci) != CellAt(rows[b].1, ci)
      {
        if (a == k || b == k) && cells[ci].Some? {
          var other := if a == k then b else a;
          assert t.rows[other].0 != t.rows[k].0;
          Absent(t.rows, ci, cells[ci].value, Some(t.rows[k].0), other);
        }
      }
    }
  }

  /** A value some row other than `k` refers to survives the change of row `k`. */
  lemma TargetSurvives(src: Rows, fi: nat, m: nat, dst: Rows, ti: nat, k: nat, cells: Row, skip: Option<RowId>)
    requires Matched(src, fi, dst, ti) && m < |src| && k < |dst| && CellAt(src[m].1, fi).Some? && Some(src[m].0) != skip
    requires var key := CellAt(dst[k].1, ti);
      key.Some? && CellAt(cells, ti) != key ==> !HasValue(src, fi, key.value, skip)
    ensures HasValue(dst[k := (dst[k].0, cells)], ti, CellAt(src[m].1, fi).value, None)
  {
    var v := CellAt(src[m].1, fi).value;
    assert HasValue(dst, ti, v, None);
    var p :| 0 <= p < |dst| && CellAt(dst[p].1, ti) == Some(v);
    if p == k {
      assert HasValue(src, fi, v, skip);
    }
    assert CellAt(dst[k := (dst[k].0, cells)][p].1, ti) == Some(v);
  }

  /** Incoming keys after the change of one row. */
  lemma UpdateIncoming(src: TableState, dst: TableState, f: ForeignKey, k: nat, cells: Row)
    requires FkHolds(src, dst, f) && k < |dst.rows|
    requires var fi, ti := ColumnIndex(src.schema.columns, f.fromCol).value,
      ColumnIndex(dst.schema.columns, f.toCol).value;
      var key := CellAt(dst.rows[k].1, ti);
      key.Some? && CellAt(cells, ti) != key ==> !HasValue(src.rows, fi, key.value, None)
    ensures FkHolds(src, dst.(rows := dst.rows[k := (dst.rows[k].0, cells)]), f)
  {
    hide ColumnIndex, HasValue;
    var fi, ti := ColumnIndex(src.schema.columns, f.fromCol).value, ColumnIndex(dst.schema.columns, f.toCol).value;
    forall m | 0 <= m < |src.rows| && CellAt(src.rows[m].1, fi).Some?
      ensures HasValue(dst.rows[k := (dst.rows[k].0, cells)], ti, CellAt(src.rows[m].1, fi).value, None)
    {
      TargetSurvives(src.rows, fi, m, dst.rows, ti, k, cells, None);
    }
  }

  /** Keys of the changed table into another table. */
  lemma UpdateOutgoing(src: TableState, dst: TableState, f: ForeignKey, k: nat, cells: Row)
    requires FkHolds(src, dst, f) && k < |src.rows|
    requires var fi, ti := ColumnIndex(src.schema.columns, f.fromCol).value,
      ColumnIndex(dst.schema.columns, f.toCol).value;
      CellAt(cells, fi).Some? ==> HasTarget(dst.rows, ti, CellAt(cells, fi).value, None, cells)
    ensures FkHolds(src.(rows := src.rows[k := (src.rows[k].0, cells)]), dst, f)
  {
    hide ColumnIndex;
    var fi, ti := ColumnIndex(src.schema.columns, f.fromCol).value, ColumnIndex(dst.schema.columns, f.toCol).value;
    if CellAt(cells, fi).Some? {
      var p :| 0 <= p < |dst.rows| && CellAt(dst.rows[p].1, ti) == CellAt(cells, fi);
      assert HasValue(dst.rows, ti, CellAt(cells, fi).value, None);
    }
  }

  /** Keys of the changed table into itself. */
  lemma UpdateSelf(t: TableState, f: ForeignKey, k: nat, cells: Row)
    requires TableOk(t) && FkHolds(t, t, f) && k < |t.rows|
    requires var fi, ti := ColumnIndex(t.schema.columns, f.fromCol).value, ColumnIndex(t.schema.columns, f.toCol).value;
      && (CellAt(cells, fi).Some? ==> HasTarget(t.rows, ti, CellAt(cells, fi).value, Some(t.rows[k].0), cells))
      && var key := CellAt(t.rows[k].1, ti);
        key.Some? && CellAt(cells, ti) != key ==> !HasValue(t.rows, fi, key.value, Some(t.rows[k].0))
    ensures var t' := t.(rows := t.rows[k := (t.rows[k].0, cells)]); FkHolds(t', t', f)
  {
    hide ColumnIndex;
    var fi, ti := ColumnIndex(t.schema.columns, f.fromCol).value, ColumnIndex(t.schema.columns, f.toCol).value;
    var rows := t.rows[k := (t.rows[k].0, cells)];
    forall m | 0 <= m < |rows| && CellAt(rows[m].1, fi).Some?
      ensures HasValue(rows, ti, CellAt(rows[m].1, fi).value, None)
    {
      if m == k {
        var v := CellAt(cells, fi).value;
        var p :| 0 <= p < |t.rows| &&
          CellAt(if Some(t.rows[p].0) == Some(t.rows[k].0) then cells else t.rows[p].1, ti) == Some(v);
        assert CellAt(rows[p].1, ti) == Some(v);
      } else {
        assert t.rows[m].0 != t.rows[k].0;
        TargetSurvives(t.rows, fi, m, t.rows, ti, k, cells, Some(t.rows[k].0));
      }
    }
  }

  lemma UpdateKeeps(db: DB, table: Text, id: RowId, cells: Row)
    requires Integrity(db) && Update(db, table, id, cells).Success? && forall c :: c in cells ==> Storable(c)
    ensures Integrity(Update(db, table, id, cells).value)
  {
    hide Validate, Restrict, FkHolds, ColumnIndex, TableOk, CellOk, RowOk, HasValue, HasTarget;
    var i := FindTable(db, table).value;
    var t := db[i];
    var k := FindRow(t.rows, id).value;
    var t' := t.(rows := t.rows[k := (id, cells)]);
    ValidateMeans(db, i, cells, Some(id));
    RestrictMeans(db, i, id, t.rows[k].1, Some(cells), 0);
    UpdateTableOk(t, k, cells);
    forall a, m | 0 <= a < |db| && a != i && 0 <= m < |db[a].schema.fks| && db[a].schema.fks[m].toTable == t.schema.name
      ensures FkHolds(db[a], t', db[a].schema.fks[m])
    {
      TargetFound(db, i, a, m);
      assert NotNeeded(db, i, id, t.rows[k].1, Some(cells), a, m);
      UpdateIncoming(db[a], t, db[a].schema.fks[m], k, cells);
    }
    forall m | 0 <= m < |t.schema.fks|
      ensures FindTable(db, t.schema.fks[m].toTable).Some?
      ensures var j := FindTable(db, t.schema.fks[m].toTable).value;
        FkHolds(t', if j == i then t' else db[j], t.schema.fks[m])
    {
      OldKey(db, i, m);
      var f := t.schema.fks[m];
      var j := FindTable(db, f.toTable).value;
      FkColumns(t, db[j], f);
      assert KeyFound(db, i, cells, Some(id), m);
      if j == i {
        assert NotNeeded(db, i, id, t.rows[k].1, Some(cells), i, m);
        UpdateSelf(t, f, k, cells);
      } else {
        UpdateOutgoing(t, db[j], f, k, cells);
      }
    }
    ReplaceOk(db, i, t');
  }

  lemma DeleteTableOk(t: TableState, k: nat)
    requires TableOk(t) && k < |t.rows|
    ensures TableOk(t.(rows := t.rows[..k] + t.rows[k + 1..]))
  {
    hide CellOk, ColumnIndex, Distinct, CellAt;
    var rows := t.rows[..k] + t.rows[k + 1..];
    assert forall m :: 0 <= m < |rows| ==> rows[m] == t.rows[if m < k then m else m + 1];
    forall ci | 0 <= ci < |t.schema.columns| && t.schema.columns[ci].unique
      ensures NoDuplicates(rows, ci)
    {
      assert NoDuplicates(t.rows, ci);
    }
  }

  /** Keys into a table that loses row `k`, from rows that are all among `src`. */
  lemma DeleteMatched(src: Rows, left: Rows, fi: nat, dst: Rows, ti: nat, k: nat, skip: Option<RowId>)
    requires Matched(src, fi, dst, ti) && k < |dst|
    requires forall m :: 0 <= m < |left| ==> left[m] in src && Some(left[m].0) != skip
    requires CellAt(dst[k].1, ti).Some? ==> !HasValue(src, fi, CellAt(dst[k].1, ti).value, skip)
    ensures Matched(left, fi, dst[..k] + dst[k + 1..], ti)
  {
    var dst' := dst[..k] + dst[k + 1..];
    forall m | 0 <= m < |left| && CellAt(left[m].1, fi).Some?
      ensures HasValue(dst', ti, CellAt(left[m].1, fi).value, None)
    {
      var v := CellAt(left[m].1, fi).value;
      var s :| 0 <= s < |src| && src[s] == left[m];
      assert HasValue(dst, ti, v, None);
      var p :| 0 <= p < |dst| && CellAt(dst[p].1, ti) == Some(v);
      if CellAt(dst[k].1, ti).Some? {
        Absent(src, fi, CellAt(dst[k].1, ti).value, skip, s);
      }
      assert dst'[if p < k then p else p - 1] == dst[p];
    }
  }

  lemma DeleteKeeps(db: DB, table: Text, id: RowId)
    requires Integrity(db) && Delete(db, table, id).Success?
    ensures Integrity(Delete(db, table, id).value)
  {
    hide Restrict, ColumnIndex, TableOk, HasValue, CellAt, Matched;
    var i := FindTable(db, table).value;
    var t := db[i];
    var k := FindRow(t.rows, id).value;
    var left := t.rows[..k] + t.rows[k + 1..];
    var t' := t.(rows := left);
    RestrictMeans(db, i, id, t.rows[k].1, None, 0);
    DeleteTableOk(t, k);
    forall a, m | 0 <= a < |db| && a != i && 0 <= m < |db[a].schema.fks| && db[a].schema.fks[m].toTable == t.schema.name
      ensures FkHolds(db[a], t', db[a].schema.fks[m])
    {
      TargetFound(db, i, a, m);
      assert NotNeeded(db, i, id, t.rows[k].1, None, a, m);
      var f := db[a].schema.fks[m];
      var fi, ti := ColumnIndex(db[a].schema.columns, f.fromCol).value, ColumnIndex(t.schema.columns, f.toCol).value;
      DeleteMatched(db[a].rows, db[a].rows, fi, t.rows, ti, k, None);
    }
    forall m | 0 <= m < |t.schema.fks|
      ensures FindTable(db, t.schema.fks[m].toTable).Some?
      ensures var j := FindTable(db, t.schema.fks[m].toTable).value;
        FkHolds(t', if j == i then t' else db[j], t.schema.fks[m])
    {
      OldKey(db, i, m);
      var f := t.schema.fks[m];
      var j := FindTable(db, f.toTable).value;
      var fi, ti := ColumnIndex(t.schema.columns, f.fromCol).value, ColumnIndex(db[j].schema.columns, f.toCol).value;
      if j == i {
        assert NotNeeded(db, i, id, t.rows[k].1, None, i, m);
        OthersLeft(t, k);
        DeleteMatched(t.rows, left, fi, t.rows, ti, k, Some(id));
      } else {
        FewerMatched(t.rows, left, fi, db[j].rows, ti);
      }
    }
    ReplaceOk(db, i, t');
  }

  lemma OthersLeft(t: TableState, k: nat)
    requires TableOk(t) && k < |t.rows|
    ensures var left := t.rows[..k] + t.rows[k + 1..];
      forall m :: 0 <= m < |left| ==> left[m] in t.rows && Some(left[m].0) != Some(t.rows[k].0)
  {
  }

  lemma FewerMatched(src: Rows, left: Rows, fi: nat, dst: Rows, ti: nat)
    requires Matched(src, fi, dst, ti) && forall m :: 0 <= m < |left| ==> left[m] in src
    ensures Matched(left, fi, dst, ti)
  {
    forall m | 0 <= m < |left| && CellAt(left[m].1, fi).Some?
      ensures HasValue(dst, ti, CellAt(left[m].1, fi).value, None)
    {
      var s :| 0 <= s < |src| && src[s] == left[m];
    }
  }

  /** Following a foreign key finds exactly one row: the reference of a live row names one. */
  lemma FollowFindsOne(db: DB, i: nat, k: nat, m: nat)
    requires Integrity(db) && i < |db| && k < |db[i].rows| && m < |db[i].schema.fks|
    ensures var f := db[i].schema.fks[m];
      var fi, j := ColumnIndex(db[i].schema.columns, f.fromCol), FindTable(db, f.toTable);
      && fi.Some? && j.Some? && ColumnIndex(db[j.value].schema.columns, f.toCol).Some?
      && var ti := ColumnIndex(db[j.value].schema.columns, f.toCol).value;
        var cell, dst := CellAt(db[i].rows[k].1, fi.value), db[j.value].rows;
        cell.Some? ==>
          exists p :: 0 <= p < |dst| && CellAt(dst[p].1, ti) == cell
            && forall q :: 0 <= q < |dst| && CellAt(dst[q].1, ti) == cell ==> q == p
  {
    hide ColumnIndex;
    OldKey(db, i, m);
    var f := db[i].schema.fks[m];
    var fi, j := ColumnIndex(db[i].schema.columns, f.fromCol).value, FindTable(db, f.toTable).value;
    var ti := ColumnIndex(db[j].schema.columns, f.toCol).value;
    var cell, dst := CellAt(db[i].rows[k].1, fi), db[j].rows;
    if cell.Some? {
      assert HasValue(dst, ti, cell.value, None);
      var p :| 0 <= p < |dst| && CellAt(dst[p].1, ti) == cell;
      assert TableOk(db[j]) && NoDuplicates(dst, ti);
    }
  }
}
