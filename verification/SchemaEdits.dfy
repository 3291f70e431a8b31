/** Schema edits: integrity is kept, and every surviving column keeps its values under its name. */
module SchemaEdits {
  import opened Errors
  import opened Bytes
  import opened Bignum
  import opened Value
  import opened Codec
  import opened Schema
  import opened Relational
  import opened RowIntegrity

  /** Column `n` of `t` is column `n'` of `t'`: same type and nullability, and the same value in every row. */
  ghost predicate KeepsData(t: TableState, t': TableState, n: Text, n': Text) {
    var a, b := ColumnIndex(t.schema.columns, n), ColumnIndex(t'.schema.columns, n');
    a.Some? ==>
      && b.Some?
      && t'.schema.columns[b.value].ty == t.schema.columns[a.value].ty
      && t'.schema.columns[b.value].nullable == t.schema.columns[a.value].nullable
      && |t'.rows| == |t.rows|
      && forall k :: 0 <= k < |t.rows| ==>
           t'.rows[k].0 == t.rows[k].0 && CellAt(t'.rows[k].1, b.value) == CellAt(t.rows[k].1, a.value)
  }

  /** The data is kept, and the column is still UNIQUE if it was. */
  ghost predicate KeepsColumn(t: TableState, t': TableState, n: Text, n': Text) {
    var a, b := ColumnIndex(t.schema.columns, n), ColumnIndex(t'.schema.columns, n');
    KeepsData(t, t', n, n') && (a.Some? && t.schema.columns[a.value].unique ==> t'.schema.columns[b.value].unique)
  }

  /** A foreign key survives edits of both ends that keep its columns. */
  lemma FkTransfer(src: TableState, src': TableState, dst: TableState, dst': TableState, f: ForeignKey, f': ForeignKey)
    requires FkHolds(src, dst, f)
    requires KeepsData(src, src', f.fromCol, f'.fromCol) && KeepsColumn(dst, dst', f.toCol, f'.toCol)
    ensures FkHolds(src', dst', f')
  {
    hide ColumnIndex, CellAt;
    var fi, ti := ColumnIndex(src.schema.columns, f.fromCol).value, ColumnIndex(dst.schema.columns, f.toCol).value;
    var fi', ti' := ColumnIndex(src'.schema.columns, f'.fromCol).value,
      ColumnIndex(dst'.schema.columns, f'.toCol).value;
    forall k | 0 <= k < |src'.rows| && CellAt(src'.rows[k].1, fi').Some?
      ensures HasValue(dst'.rows, ti', CellAt(src'.rows[k].1, fi').value, None)
    {
      var v := CellAt(src.rows[k].1, fi).value;
      assert HasValue(dst.rows, ti, v, None);
      var p :| 0 <= p < |dst.rows| && CellAt(dst.rows[p].1, ti) == Some(v);
      assert CellAt(dst'.rows[p].1, ti') == Some(v);
    }
  }

  lemma KeptAsIs(t: TableState, n: Text)
    ensures KeepsColumn(t, t, n, n)
  {
  }

  /** An edit of one table's columns that keeps every column a key uses keeps integrity. */
  lemma EditOk(db: DB, i: nat, t': TableState)
    requires Integrity(db) && i < |db| && TableOk(t')
    requires t'.schema.name == db[i].schema.name && t'.schema.fks == db[i].schema.fks
    requires forall k :: 0 <= k < |t'.schema.fks| ==>
      KeepsData(db[i], t', t'.schema.fks[k].fromCol, t'.schema.fks[k].fromCol)
    requires forall a, k ::
      0 <= a < |db| && 0 <= k < |db[a].schema.fks| && db[a].schema.fks[k].toTable == t'.schema.name ==>
      KeepsColumn(db[i], t', db[a].schema.fks[k].toCol, db[a].schema.fks[k].toCol)
    ensures Integrity(db[i := t'])
  {
    hide FkHolds, KeepsColumn, TableOk;
    forall a, k | 0 <= a < |db| && a != i && 0 <= k < |db[a].schema.fks| &&
      db[a].schema.fks[k].toTable == db[i].schema.name
      ensures FkHolds(db[a], t', db[a].schema.fks[k])
    {
      var f := db[a].schema.fks[k];
      TargetFound(db, i, a, k);
      KeptAsIs(db[a], f.fromCol);
      FkTransfer(db[a], db[a], db[i], t', f, f);
    }
    forall k | 0 <= k < |t'.schema.fks|
      ensures FindTable(db, t'.schema.fks[k].toTable).Some?
      ensures var j := FindTable(db, t'.schema.fks[k].toTable).value;
        FkHolds(t', if j == i then t' else db[j], t'.schema.fks[k])
    {
      var f := t'.schema.fks[k];
      OldKey(db, i, k);
      var j := FindTable(db, f.toTable).value;
      KeptAsIs(db[j], f.toCol);
      FkTransfer(db[i], t', db[j], if j == i then t' else db[j], f, f);
    }
    ReplaceOk(db, i, t');
  }

  lemma {:induction false} IndexUnique(cols: seq<Column>, k: nat)
    requires DistinctColumns(cols) && k < |cols|
    ensures ColumnIndex(cols, cols[k].name) == Some(k)
  {
    var r := ColumnIndex(cols, cols[k].name);
    assert r.Some?;
  }

  // ---- adding a column ------------------------------------------------------------------

  lemma IndexAppend(cols: seq<Column>, c: Column, n: Text)
    ensures ColumnIndex(cols, n).Some? ==> ColumnIndex(cols + [c], n) == ColumnIndex(cols, n)
  {
    var a, b := ColumnIndex(cols, n), ColumnIndex(cols + [c], n);
    if a.Some? {
      assert (cols + [c])[a.value].name == n;
      assert forall k :: 0 <= k < |cols| ==> (cols + [c])[k] == cols[k];
    }
  }

  lemma NewColumnKeeps(t: TableState, col: Column, n: Text)
    requires TableOk(t)
    ensures KeepsColumn(t, WithNewColumn(t, col), n, n)
  {
    hide CellOk;
    IndexAppend(t.schema.columns, col, n);
    forall k | 0 <= k < |t.rows|
      ensures |t.rows[k].1| == |t.schema.columns|
    {
      assert RowOk(t.schema.columns, t.rows[k].1);
    }
  }

  lemma AddColumnTableOk(t: TableState, col: Column)
    requires TableOk(t) && ColumnIndex(t.schema.columns, col.name).None? && (col.nullable || t.rows == [])
    ensures TableOk(WithNewColumn(t, col))
  {
    hide ColumnIndex, Distinct;
    var t' := WithNewColumn(t, col);
    forall n | n in t.schema.refCols
      ensures ColumnIndex(t'.schema.columns, n).Some?
    {
      IndexAppend(t.schema.columns, col, n);
    }
    forall k | 0 <= k < |t.rows|
      ensures RowOk(t'.schema.columns, t'.rows[k].1)
    {
      assert RowOk(t.schema.columns, t.rows[k].1);
    }
    forall ci | 0 <= ci < |t'.schema.columns| && t'.schema.columns[ci].unique
      ensures NoDuplicates(t'.rows, ci)
    {
      if ci < |t.schema.columns| {
        assert NoDuplicates(t.rows, ci);
      }
      assert forall k :: 0 <= k < |t.rows| ==> RowOk(t.schema.columns, t.rows[k].1);
    }
  }

  lemma AddColumnKeeps(db: DB, table: Text, col: Column)
    requires Integrity(db) && AddColumn(db, table, col).Success?
    ensures Integrity(AddColumn(db, table, col).value)
  {
    hide ColumnIndex, KeepsData, TableOk, FksOk, MapRows;
    var i := FindTable(db, table).value;
    var t' := WithNewColumn(db[i], col);
    AddColumnTableOk(db[i], col);
    forall n: Text
      ensures KeepsData(db[i], t', n, n) && KeepsColumn(db[i], t', n, n)
    {
      NewColumnKeeps(db[i], col, n);
    }
    EditOk(db, i, t');
  }

  /** `add_column` leaves every column's values under its name, and every other table alone. */
  lemma AddColumnKeepsData(db: DB, table: Text, col: Column, n: Text)
    requires Integrity(db) && AddColumn(db, table, col).Success?
    ensures var i, db' := FindTable(db, table).value, AddColumn(db, table, col).value;
      |db'| == |db| && KeepsColumn(db[i], db'[i], n, n) && forall j :: 0 <= j < |db| && j != i ==> db'[j] == db[j]
  {
    hide ColumnIndex, KeepsColumn, FksOk, WithNewColumn, TableOk;
    NewColumnKeeps(db[FindTable(db, table).value], col, n);
  }

  // ---- dropping and moving columns ---------------------------------------------------------

  /** Column `p` of `t'` is column `from[p]` of `t`, cell by cell. */
  ghost predicate Reordered(t: TableState, t': TableState, from: seq<nat>) {
    && |from| == |t'.schema.columns| && Distinct(from) && |t'.rows| == |t.rows|
    && (forall p :: 0 <= p < |from| ==>
          from[p] < |t.schema.columns| && t'.schema.columns[p] == t.schema.columns[from[p]])
    && (forall k :: 0 <= k < |t.rows| ==> t'.rows[k].0 == t.rows[k].0 && |t'.rows[k].1| == |from|)
    && (forall k, p :: 0 <= k < |t.rows| && 0 <= p < |from| ==> t'.rows[k].1[p] == CellAt(t.rows[k].1, from[p]))
  }

  lemma ReorderedKeepsData(t: TableState, t': TableState, from: seq<nat>, p: nat)
    requires TableOk(t) && Reordered(t, t', from) && p < |from|
    ensures KeepsColumn(t, t', t'.schema.columns[p].name, t'.schema.columns[p].name)
    ensures ColumnIndex(t'.schema.columns, t'.schema.columns[p].name) == Some(p)
  {
    hide RowOk, RefColsOk, NoDuplicates, DistinctIds, DistinctFks, ColumnIndex;
    ReorderedDistinct(t, t', from);
    IndexUnique(t'.schema.columns, p);
    IndexUnique(t.schema.columns, from[p]);
  }

  lemma ReorderedDistinct(t: TableState, t': TableState, from: seq<nat>)
    requires DistinctColumns(t.schema.columns) && Reordered(t, t', from)
    ensures DistinctColumns(t'.schema.columns)
  {
    forall i, j | 0 <= i < j < |from|
      ensures t'.schema.columns[i].name != t'.schema.columns[j].name
    {
      assert from[i] != from[j];
    }
  }

  lemma ReorderedTableOk(t: TableState, t': TableState, from: seq<nat>)
    requires TableOk(t) && Reordered(t, t', from) && RefColsOk(t'.schema) && t'.schema.fks == t.schema.fks
    ensures TableOk(t')
  {
    hide RefColsOk, DistinctFks, ColumnIndex, CellOk;
    ReorderedDistinct(t, t', from);
    forall k | 0 <= k < |t'.rows|
      ensures RowOk(t'.schema.columns, t'.rows[k].1)
    {
      assert RowOk(t.schema.columns, t.rows[k].1);
    }
    forall ci | 0 <= ci < |t'.schema.columns| && t'.schema.columns[ci].unique
      ensures NoDuplicates(t'.rows, ci)
    {
      assert NoDuplicates(t.rows, from[ci]);
    }
  }

  /** The positions left when `idx` goes. */
  ghost function Skipping(n: nat, idx: nat): (from: seq<nat>)
    requires idx < n
    ensures |from| == n - 1
  {
    seq(n - 1, p requires 0 <= p < n - 1 => if p < idx then p else p + 1)
  }

  lemma DropReorders(t: TableState, idx: nat, col: Text)
    requires TableOk(t) && idx < |t.schema.columns|
    ensures Reordered(t, WithoutColumn(t, idx, col), Skipping(|t.schema.columns|, idx))
  {
    hide RefColsOk, DistinctFks, ColumnIndex, CellOk, NoDuplicates, Remove;
    forall k | 0 <= k < |t.rows|
      ensures |t.rows[k].1| == |t.schema.columns|
    {
      assert RowOk(t.schema.columns, t.rows[k].1);
    }
  }

  lemma OtherColumnsKept(t: TableState, idx: nat, col: Text, n: Text)
    requires TableOk(t) && ColumnIndex(t.schema.columns, col) == Some(idx) && n != col
    ensures KeepsColumn(t, WithoutColumn(t, idx, col), n, n)
  {
    hide TableOk, Reordered, Remove;
    var t', from := WithoutColumn(t, idx, col), Skipping(|t.schema.columns|, idx);
    var a := ColumnIndex(t.schema.columns, n);
    if a.Some? {
      var p := if a.value < idx then a.value else a.value - 1;
      DropReorders(t, idx, col);
      ReorderedKeepsData(t, t', from, p);
      assert t'.schema.columns[p].name == n;
    }
  }

  lemma {:induction false} RemoveDistinct(names: seq<Text>, n: Text)
    requires Distinct(names)
    ensures Distinct(Remove(names, n))
  {
    if names != [] {
      assert Distinct(names[1..]);
      RemoveDistinct(names[1..], n);
      assert names[0] !in names[1..];
    }
  }

  lemma DropRefsOk(t: TableState, idx: nat, col: Text)
    requires TableOk(t) && ColumnIndex(t.schema.columns, col) == Some(idx)
    ensures RefColsOk(WithoutColumn(t, idx, col).schema)
  {
    hide RowOk, NoDuplicates, Distinct;
    var t' := WithoutColumn(t, idx, col);
    RemoveDistinct(t.schema.refCols, col);
    forall n | n in t'.schema.refCols
      ensures ColumnIndex(t'.schema.columns, n).Some?
    {
      OtherColumnsKept(t, idx, col, n);
    }
  }

  lemma DropColumnKeeps(db: DB, table: Text, col: Text)
    requires Integrity(db) && DropColumn(db, table, col).Success?
    ensures Integrity(DropColumn(db, table, col).value)
  {
    hide ColumnIndex, KeepsData, TableOk, FksOk, MapRows, Remove;
    var i := FindTable(db, table).value;
    var idx := ColumnIndex(db[i].schema.columns, col).value;
    var t' := WithoutColumn(db[i], idx, col);
    DropRefsOk(db[i], idx, col);
    DropReorders(db[i], idx, col);
    ReorderedTableOk(db[i], t', Skipping(|db[i].schema.columns|, idx));
    forall n: Text | n != col
      ensures KeepsData(db[i], t', n, n) && KeepsColumn(db[i], t', n, n)
    {
      OtherColumnsKept(db[i], idx, col, n);
    }
    EditOk(db, i, t');
  }

  /** `drop_column` leaves every other column's values under its name, and every other table alone. */
  lemma DropColumnKeepsData(db: DB, table: Text, col: Text, n: Text)
    requires Integrity(db) && DropColumn(db, table, col).Success? && n != col
    ensures var i, db' := FindTable(db, table).value, DropColumn(db, table, col).value;
      |db'| == |db| && KeepsColumn(db[i], db'[i], n, n) && forall j :: 0 <= j < |db| && j != i ==> db'[j] == db[j]
  {
    hide ColumnIndex, KeepsColumn, FksOk, WithoutColumn, TableOk;
    var t := db[FindTable(db, table).value];
    OtherColumnsKept(t, ColumnIndex(t.schema.columns, col).value, col, n);
  }

  /** Where each position of a moved sequence comes from. */
  ghost function MovedFrom(n: nat, from: nat, to: nat): (r: seq<nat>)
    requires from < n && to < n
    ensures |r| == n
  {
    seq(n, p requires 0 <= p < n => SourceOf(from, to, p))
  }

  function SourceOf(from: nat, to: nat, p: nat): nat {
    if p == to then from
    else
      var q := if p < to then p else p - 1;
      if q < from then q else q + 1
  }

  lemma MovedAt<T>(xs: seq<T>, from: nat, to: nat, p: nat)
    requires from < |xs| && to < |xs| && p < |xs|
    ensures SourceOf(from, to, p) < |xs| && Moved(xs, from, to)[p] == xs[SourceOf(from, to, p)]
  {
  }

  /** Every position is the source of one. */
  function PlaceOf(n: nat, from: nat, to: nat, a: nat): (p: nat)
    requires from < n && to < n && a < n
    ensures p < n && SourceOf(from, to, p) == a
  {
    if a == from then to
    else
      var q := if a < from then a else a - 1;
      if q < to then q else q + 1
  }

  lemma MoveReorders(t: TableState, from: nat, to: nat)
    requires TableOk(t) && from < |t.schema.columns| && to < |t.schema.columns|
    ensures Reordered(t, WithMovedColumn(t, from, to), MovedFrom(|t.schema.columns|, from, to))
  {
    hide RefColsOk, DistinctFks, ColumnIndex, CellOk, NoDuplicates, Moved, SourceOf;
    var t', n := WithMovedColumn(t, from, to), |t.schema.columns|;
    forall p | 0 <= p < n
      ensures SourceOf(from, to, p) < n && t'.schema.columns[p] == t.schema.columns[SourceOf(from, to, p)]
    {
      MovedAt(t.schema.columns, from, to, p);
    }
    forall p, q | 0 <= p < q < n
      ensures SourceOf(from, to, p) != SourceOf(from, to, q)
    {
      SourcesDiffer(from, to, p, q);
    }
    forall k, p | 0 <= k < |t.rows| && 0 <= p < n
      ensures t'.rows[k].1[p] == CellAt(t.rows[k].1, SourceOf(from, to, p))
    {
      MovedAt(Fitted(t.rows[k].1, n), from, to, p);
    }
  }

  lemma SourcesDiffer(from: nat, to: nat, p: nat, q: nat)
    requires p != q
    ensures SourceOf(from, to, p) != SourceOf(from, to, q)
  {
  }

  lemma MovedColumnsKept(t: TableState, from: nat, to: nat, n: Text)
    requires TableOk(t) && from < |t.schema.columns| && to < |t.schema.columns|
    ensures KeepsColumn(t, WithMovedColumn(t, from, to), n, n)
  {
    hide TableOk, Reordered, Moved, SourceOf, MapRows;
    var t' := WithMovedColumn(t, from, to);
    var a := ColumnIndex(t.schema.columns, n);
    if a.Some? {
      var p := PlaceOf(|t.schema.columns|, from, to, a.value);
      MovedAt(t.schema.columns, from, to, p);
      MoveReorders(t, from, to);
      ReorderedKeepsData(t, t', MovedFrom(|t.schema.columns|, from, to), p);
    }
  }

  lemma MoveColumnKeeps(db: DB, table: Text, col: Text, newIndex: nat)
    requires Integrity(db) && MoveColumn(db, table, col, newIndex).Success?
    ensures Integrity(MoveColumn(db, table, col, newIndex).value)
  {
    hide ColumnIndex, KeepsData, FksOk, MapRows, Moved, Distinct, RowOk, NoDuplicates;
    var i := FindTable(db, table).value;
    var t, from := db[i], ColumnIndex(db[i].schema.columns, col).value;
    if newIndex != from {
      var t' := WithMovedColumn(t, from, newIndex);
      forall n: Text
        ensures KeepsData(t, t', n, n) && KeepsColumn(t, t', n, n)
      {
        MovedColumnsKept(t, from, newIndex, n);
      }
      assert TableOk(t);
      forall n | n in t'.schema.refCols
        ensures ColumnIndex(t'.schema.columns, n).Some?
      {
        assert KeepsColumn(t, t', n, n);
        KeptSome(t, t', n);
      }
      MoveReorders(t, from, newIndex);
      ReorderedTableOk(t, t', MovedFrom(|t.schema.columns|, from, newIndex));
      EditOk(db, i, t');
    }
  }

  /** `move_column` leaves every column's values under its name, whatever the two places, and every other table
      alone. */
  lemma MoveColumnKeepsData(db: DB, table: Text, col: Text, newIndex: nat, n: Text)
    requires Integrity(db) && MoveColumn(db, table, col, newIndex).Success?
    ensures var i, db' := FindTable(db, table).value, MoveColumn(db, table, col, newIndex).value;
      |db'| == |db| && KeepsColumn(db[i], db'[i], n, n) && forall j :: 0 <= j < |db| && j != i ==> db'[j] == db[j]
  {
    hide ColumnIndex, KeepsColumn, FksOk, WithMovedColumn, TableOk;
    var t := db[FindTable(db, table).value];
    var from := ColumnIndex(t.schema.columns, col).value;
    if newIndex == from {
      KeptAsIs(t, n);
    } else {
      MovedColumnsKept(t, from, newIndex, n);
    }
  }

  lemma KeptSome(t: TableState, t': TableState, n: Text)
    requires KeepsColumn(t, t', n, n) && ColumnIndex(t.schema.columns, n).Some?
    ensures ColumnIndex(t'.schema.columns, n).Some?
  {
  }

  // ---- renaming a column --------------------------------------------------------------------

  function RenamedState(t: TableState, table: Text, old_: Text, new_: Text): TableState {
    t.(schema := Renamed(t.schema, table, old_, new_))
  }

  /** What `n` is called afterwards in `t`. */
  function NewName(t: TableState, table: Text, old_: Text, new_: Text, n: Text): Text {
    if t.schema.name == table then RenameText(n, old_, new_) else n
  }

  lemma RenamedColumnKept(t: TableState, table: Text, old_: Text, new_: Text, n: Text)
    requires DistinctColumns(t.schema.columns)
    requires t.schema.name == table ==> ColumnIndex(t.schema.columns, new_).None?
    ensures KeepsColumn(t, RenamedState(t, table, old_, new_), n, NewName(t, table, old_, new_, n))
  {
    var cols, cols' := t.schema.columns, RenamedState(t, table, old_, new_).schema.columns;
    var a := ColumnIndex(cols, n);
    if a.Some? {
      RenameDistinct(t, table, old_, new_);
      IndexUnique(cols', a.value);
    }
  }

  lemma RenameDistinct(t: TableState, table: Text, old_: Text, new_: Text)
    requires DistinctColumns(t.schema.columns)
    requires t.schema.name == table ==> ColumnIndex(t.schema.columns, new_).None?
    ensures DistinctColumns(RenamedState(t, table, old_, new_).schema.columns)
  {
  }

  lemma RenameTableOk(t: TableState, table: Text, old_: Text, new_: Text)
    requires TableOk(t) && (t.schema.name == table ==> ColumnIndex(t.schema.columns, new_).None?)
    ensures TableOk(RenamedState(t, table, old_, new_))
  {
    hide ColumnIndex, Storable;
    var t' := RenamedState(t, table, old_, new_);
    RenameDistinct(t, table, old_, new_);
    forall k | 0 <= k < |t.rows|
      ensures RowOk(t'.schema.columns, t'.rows[k].1)
    {
      assert RowOk(t.schema.columns, t.rows[k].1);
    }
    forall ci | 0 <= ci < |t'.schema.columns| && t'.schema.columns[ci].unique
      ensures NoDuplicates(t'.rows, ci)
    {
      assert NoDuplicates(t.rows, ci);
    }
    RenameRefs(t, table, old_, new_);
  }

  lemma RenameRefs(t: TableState, table: Text, old_: Text, new_: Text)
    requires TableOk(t) && (t.schema.name == table ==> ColumnIndex(t.schema.columns, new_).None?)
    ensures RefColsOk(RenamedState(t, table, old_, new_).schema)
  {
    hide ColumnIndex, RowOk, NoDuplicates;
    var t' := RenamedState(t, table, old_, new_);
    var refs, refs' := t.schema.refCols, t'.schema.refCols;
    forall j, k | 0 <= j < k < |refs'|
      ensures refs'[j] != refs'[k]
    {
      assert refs[j] != refs[k] && refs[j] in refs && refs[k] in refs;
    }
    forall k | 0 <= k < |refs'|
      ensures ColumnIndex(t'.schema.columns, refs'[k]).Some?
    {
      assert refs[k] in refs;
      RenamedColumnKept(t, table, old_, new_, refs[k]);
    }
  }

  lemma RenameColumnKeeps(db: DB, table: Text, old_: Text, new_: Text)
    requires Integrity(db) && RenameColumn(db, table, old_, new_).Success?
    ensures Integrity(RenameColumn(db, table, old_, new_).value)
  {
    hide ColumnIndex, KeepsColumn, TableOk, FkHolds;
    if old_ != new_ {
      var db' := RenameAll(db, table, old_, new_);
      var i := FindTable(db, table).value;
      forall a | 0 <= a < |db|
        ensures db[a].schema.name == table ==> ColumnIndex(db[a].schema.columns, new_).None?
      {
        assert db[a].schema.name == table ==> a == i;
      }
      forall a | 0 <= a < |db|
        ensures TableOk(db'[a])
      {
        RenameTableOk(db[a], table, old_, new_);
      }
      forall a | 0 <= a < |db|
        ensures FksOk(db', db'[a])
      {
        forall k | 0 <= k < |db'[a].schema.fks|
          ensures FkOk(db', db'[a], db'[a].schema.fks[k])
        {
          RenameKey(db, table, old_, new_, a, k);
        }
      }
    }
  }

  /** `rename_column` leaves every value of every table under its column's name, the renamed column's under the new. */
  lemma RenameKeepsData(db: DB, table: Text, old_: Text, new_: Text, i: nat, n: Text)
    requires Integrity(db) && RenameColumn(db, table, old_, new_).Success? && i < |db|
    ensures var db' := RenameColumn(db, table, old_, new_).value;
      |db'| == |db| && KeepsColumn(db[i], db'[i], n, NewName(db[i], table, old_, new_, n))
  {
    hide ColumnIndex, KeepsColumn, FksOk;
    assert TableOk(db[i]);
    if old_ == new_ {
      KeptAsIs(db[i], n);
    } else {
      assert db[i].schema.name == table ==> i == FindTable(db, table).value;
      RenamedColumnKept(db[i], table, old_, new_, n);
    }
  }

  /** A key still joins the same two columns, whatever they are called now. */
  lemma RenameKey(db: DB, table: Text, old_: Text, new_: Text, a: nat, k: nat)
    requires Integrity(db) && a < |db| && k < |db[a].schema.fks|
    requires forall b :: 0 <= b < |db| && db[b].schema.name == table ==> ColumnIndex(db[b].schema.columns, new_).None?
    ensures var db' := RenameAll(db, table, old_, new_); FkOk(db', db'[a], db'[a].schema.fks[k])
    ensures var f, f' := db[a].schema.fks[k], RenameAll(db, table, old_, new_)[a].schema.fks[k];
      && f'.name == f.name && f'.toTable == f.toTable
      && f'.fromCol == NewName(db[a], table, old_, new_, f.fromCol)
      && FindTable(db, f.toTable).Some?
      && f'.toCol == NewName(db[FindTable(db, f.toTable).value], table, old_, new_, f.toCol)
  {
    hide ColumnIndex, KeepsColumn, FkHolds;
    var db', f := RenameAll(db, table, old_, new_), db[a].schema.fks[k];
    OldKey(db, a, k);
    SameNames(db, db', f.toTable);
    var j := FindTable(db, f.toTable).value;
    assert TableOk(db[a]) && TableOk(db[j]);
    RenamedColumnKept(db[a], table, old_, new_, f.fromCol);
    RenamedColumnKept(db[j], table, old_, new_, f.toCol);
    FkTransfer(db[a], db'[a], db[j], db'[j], f, db'[a].schema.fks[k]);
  }

  // ---- column flags ---------------------------------------------------------------------------

  lemma {:induction false} IndexAfterSet(cols: seq<Column>, ci: nat, c: Column, n: Text)
    requires ci < |cols| && c.name == cols[ci].name
    ensures ColumnIndex(cols[ci := c], n) == ColumnIndex(cols, n)
  {
    var a, b := ColumnIndex(cols, n), ColumnIndex(cols[ci := c], n);
    assert a.Some? ==> cols[ci := c][a.value].name == n;
    assert b.Some? ==> cols[b.value].name == n;
  }

  /** Changing a column's flags moves no data. */
  lemma SetColumnKeepsData(t: TableState, ci: nat, c: Column, n: Text)
    requires DistinctColumns(t.schema.columns) && ci < |t.schema.columns|
    requires var o := t.schema.columns[ci]; c.name == o.name && c.ty == o.ty && c.nullable == o.nullable
    ensures var t' := WithFlags(t, ci, c);
      KeepsData(t, t', n, n) && (c.unique || !t.schema.columns[ci].unique || n != c.name ==> KeepsColumn(t, t', n, n))
  {
    IndexAfterSet(t.schema.columns, ci, c, n);
  }

  lemma SetColumnTableOk(t: TableState, ci: nat, c: Column)
    requires TableOk(t) && ci < |t.schema.columns|
    requires var o := t.schema.columns[ci];
      c.name == o.name && c.ty == o.ty && c.nullable == o.nullable && (c.unique ==> NoDuplicates(t.rows, ci))
    ensures TableOk(WithFlags(t, ci, c))
  {
    hide ColumnIndex, Storable, Distinct, NoDuplicates;
    var t' := WithFlags(t, ci, c);
    forall n | n in t'.schema.refCols
      ensures ColumnIndex(t'.schema.columns, n).Some?
    {
      IndexAfterSet(t.schema.columns, ci, c, n);
    }
    forall k | 0 <= k < |t.rows|
      ensures RowOk(t'.schema.columns, t'.rows[k].1)
    {
      assert RowOk(t.schema.columns, t.rows[k].1);
    }
  }

  lemma SetColumnKeeps(db: DB, i: nat, ci: nat, c: Column)
    requires Integrity(db) && i < |db| && ci < |db[i].schema.columns|
    requires var o := db[i].schema.columns[ci]; c.name == o.name && c.ty == o.ty && c.nullable == o.nullable
    requires c.unique ==> NoDuplicates(db[i].rows, ci)
    requires c.unique || !db[i].schema.columns[ci].unique || !Targeted(db, db[i].schema.name, c.name)
    ensures Integrity(db[i := WithFlags(db[i], ci, c)])
  {
    hide ColumnIndex, KeepsColumn, KeepsData, FksOk, NoDuplicates, RowOk, RefColsOk, DistinctIds, DistinctFks;
    var t' := WithFlags(db[i], ci, c);
    assert TableOk(db[i]);
    SetColumnTableOk(db[i], ci, c);
    forall n: Text
      ensures KeepsData(db[i], t', n, n)
      ensures c.unique || !db[i].schema.columns[ci].unique || n != c.name ==> KeepsColumn(db[i], t', n, n)
    {
      SetColumnKeepsData(db[i], ci, c, n);
    }
    EditOk(db, i, t');
  }

  lemma SetUniqueKeeps(db: DB, table: Text, col: Text, unique: bool)
    requires Integrity(db) && SetUnique(db, table, col, unique).Success?
    ensures Integrity(SetUnique(db, table, col, unique).value)
  {
    hide TableOk, FksOk, NoDuplicates, Targeted;
    var i := FindTable(db, table).value;
    var ci := ColumnIndex(db[i].schema.columns, col).value;
    SetColumnKeeps(db, i, ci, db[i].schema.columns[ci].(unique := unique));
  }

  lemma SetDisplayWidthKeeps(db: DB, table: Text, col: Text, width: Option<u16>)
    requires Integrity(db) && SetDisplayWidth(db, table, col, width).Success?
    ensures Integrity(SetDisplayWidth(db, table, col, width).value)
  {
    hide FksOk, NoDuplicates, Targeted, RowOk, RefColsOk, DistinctFks, DistinctColumns, DistinctIds;
    var i := FindTable(db, table).value;
    var ci := ColumnIndex(db[i].schema.columns, col).value;
    assert TableOk(db[i]);
    SetColumnKeeps(db, i, ci, db[i].schema.columns[ci].(displayWidth := width));
  }

  // ---- keys ----------------------------------------------------------------------------------------

  lemma {:induction false} CounterDigits(n: nat)
    ensures BigUintOf(n).Canonical() && BigUintOf(n).Value() == n
  {
    if n > 0 {
      CounterDigits(n / 10);
      ValLast(BigUintOf(n / 10).digits, n % 10);
    }
  }

  lemma CandidatesDiffer(col: Text, m: nat, n: nat)
    requires m != n && (m == 0 || m >= 2) && n >= 2
    ensures FkCandidate(col, m) != FkCandidate(col, n)
  {
    hide BigUintOf, UintText;
    CounterDigits(m);
    CounterDigits(n);
    UintRoundTrip(BigUintOf(m));
    UintRoundTrip(BigUintOf(n));
    var base := col + [95, 102, 107];
    assert FkCandidate(col, m)[|base|..] == if m < 2 then [] else UintText(BigUintOf(m));
    assert FkCandidate(col, n)[|base|..] == UintText(BigUintOf(n));
  }

  ghost function NamesOf(fks: seq<ForeignKey>): set<Text> {
    set k | 0 <= k < |fks| :: fks[k].name
  }

  lemma {:induction false} FewNames(fks: seq<ForeignKey>)
    ensures |NamesOf(fks)| <= |fks|
  {
    if fks != [] {
      var n := |fks| - 1;
      FewNames(fks[..n]);
      assert NamesOf(fks) == NamesOf(fks[..n]) + {fks[n].name};
    }
  }

  lemma SubsetFits(a: set<Text>, b: set<Text>)
    requires a <= b
    ensures |a| <= |b|
  {
    assert b == a + (b - a);
  }

  /** The search for a free name stops in time: every refused candidate uses up one of the names there are. */
  lemma {:induction false} FkNameFree(fks: seq<ForeignKey>, col: Text, n: nat, fuel: nat, tried: set<Text>)
    requires tried <= NamesOf(fks) && |tried| + fuel == |fks| && (n == 0 || n >= 2)
    requires forall x :: x in tried ==> exists m :: m < n && (m == 0 || m >= 2) && x == FkCandidate(col, m)
    ensures !FkNameTaken(fks, FkName(fks, col, n, fuel))
    decreases fuel
  {
    hide FkCandidate;
    var base := FkCandidate(col, n);
    if FkNameTaken(fks, base) {
      forall x | x in tried
        ensures x != base
      {
        var m :| m < n && (m == 0 || m >= 2) && x == FkCandidate(col, m);
        CandidatesDiffer(col, m, n);
      }
      FewNames(fks);
      SubsetFits(tried + {base}, NamesOf(fks));
      FkNameFree(fks, col, if n < 2 then 2 else n + 1, fuel - 1, tried + {base});
    }
  }

  lemma AddFkTableOk(t: TableState, f: ForeignKey)
    requires TableOk(t) && !FkNameTaken(t.schema.fks, f.name)
    ensures TableOk(t.(schema := t.schema.(fks := t.schema.fks + [f])))
  {
    hide RowOk, NoDuplicates, ColumnIndex;
  }

  /** Keys and references of a table may change freely as long as the keys hold. */
  lemma RekeyOk(db: DB, i: nat, t': TableState)
    requires Integrity(db) && i < |db| && TableOk(t')
    requires t'.rows == db[i].rows && t'.schema.name == db[i].schema.name && t'.schema.columns == db[i].schema.columns
    requires forall k :: 0 <= k < |t'.schema.fks| ==> FkOk(db, db[i], t'.schema.fks[k])
    ensures Integrity(db[i := t'])
  {
    hide TableOk, Matched, ColumnIndex;
    forall a, k | 0 <= a < |db| && a != i && 0 <= k < |db[a].schema.fks| &&
      db[a].schema.fks[k].toTable == db[i].schema.name
      ensures FkHolds(db[a], t', db[a].schema.fks[k])
    {
      TargetFound(db, i, a, k);
    }
    forall k | 0 <= k < |t'.schema.fks|
      ensures FindTable(db, t'.schema.fks[k].toTable).Some?
      ensures var j := FindTable(db, t'.schema.fks[k].toTable).value;
        FkHolds(t', if j == i then t' else db[j], t'.schema.fks[k])
    {
      assert FkOk(db, db[i], t'.schema.fks[k]);
    }
    ReplaceOk(db, i, t');
  }

  /** `add_fk` finds a name no other key of the table has. */
  lemma AddFkKeeps(db: DB, table: Text, fromCol: Text, toTable: Text, toCol: Text)
    requires Integrity(db) && AddFk(db, table, fromCol, toTable, toCol).Success?
    ensures Integrity(AddFk(db, table, fromCol, toTable, toCol).value)
  {
    hide TableOk, Matched, ColumnIndex, FkName, FkNameTaken;
    var i := FindTable(db, table).value;
    var t := db[i];
    var f := ForeignKey(FkName(t.schema.fks, fromCol, 0, |t.schema.fks|), fromCol, toTable, toCol);
    FkNameFree(t.schema.fks, fromCol, 0, |t.schema.fks|, {});
    AddFkTableOk(t, f);
    var t' := t.(schema := t.schema.(fks := t.schema.fks + [f]));
    forall k | 0 <= k < |t'.schema.fks|
      ensures FkOk(db, t, t'.schema.fks[k])
    {
      if k < |t.schema.fks| {
        OldKey(db, i, k);
      }
    }
    RekeyOk(db, i, t');
  }

  /** Exactly the keys not called `name` stay. */
  lemma {:induction false} DropNamedMeans(fks: seq<ForeignKey>, name: Text)
    ensures forall f :: f in DropNamed(fks, name) <==> f in fks && f.name != name
    ensures DistinctFks(fks) ==> DistinctFks(DropNamed(fks, name))
  {
    if fks != [] {
      var rest := DropNamed(fks[1..], name);
      DropNamedMeans(fks[1..], name);
      if DistinctFks(fks) && fks[0].name != name {
        assert DistinctFks(fks[1..]);
        forall j, k | 0 <= j < k < |rest| + 1
          ensures ([fks[0]] + rest)[j].name != ([fks[0]] + rest)[k].name
        {
          assert rest[k - 1] in fks[1..];
        }
      }
    }
  }

  /** `drop_fk` finds its key exactly when there is one of that name. */
  lemma {:induction false} DropNamedShrinks(fks: seq<ForeignKey>, name: Text)
    ensures |DropNamed(fks, name)| <= |fks|
    ensures |DropNamed(fks, name)| == |fks| <==> forall f :: f in fks ==> f.name != name
  {
    if fks != [] {
      DropNamedShrinks(fks[1..], name);
      assert fks == [fks[0]] + fks[1..];
    }
  }

  lemma DropFkKeeps(db: DB, table: Text, fkName: Text)
    requires Integrity(db) && DropFk(db, table, fkName).Success?
    ensures Integrity(DropFk(db, table, fkName).value)
  {
    hide RowOk, NoDuplicates, ColumnIndex, DropNamed, FkOk, Distinct, FkNameTaken;
    var i := FindTable(db, table).value;
    var t := db[i];
    assert TableOk(t);
    DropNamedMeans(t.schema.fks, fkName);
    var t' := t.(schema := t.schema.(fks := DropNamed(t.schema.fks, fkName)));
    assert FksOk(db, t);
    forall k | 0 <= k < |t'.schema.fks|
      ensures FkOk(db, t, t'.schema.fks[k])
    {
      assert t'.schema.fks[k] in t.schema.fks;
    }
    RekeyOk(db, i, t');
  }

  lemma {:induction false} RefsChecked(cols: seq<Column>, names: seq<Text>, k: nat)
    requires k <= |names|
    ensures CheckRefs(cols, names, k).Success? <==>
      forall m :: k <= m < |names| ==> ColumnIndex(cols, names[m]).Some? && names[m] !in names[..m]
    decreases |names| - k
  {
    if k < |names| {
      RefsChecked(cols, names, k + 1);
    }
  }

  /** `set_reference_columns` accepts exactly distinct existing names. */
  lemma SetReferenceColumnsAccepts(db: DB, table: Text, names: seq<Text>)
    ensures SetReferenceColumns(db, table, names).Success? <==>
      && FindTable(db, table).Some?
      && RefColsOk(db[FindTable(db, table).value].schema.(refCols := names))
  {
    hide ColumnIndex;
    if FindTable(db, table).Some? {
      var cols := db[FindTable(db, table).value].schema.columns;
      RefsChecked(cols, names, 0);
      if Distinct(names) {
        assert forall m :: 0 <= m < |names| ==> names[m] !in names[..m];
      }
      if forall m :: 0 <= m < |names| ==> names[m] !in names[..m] {
        forall j, k | 0 <= j < k < |names|
          ensures names[j] != names[k]
        {
          assert names[..k][j] == names[j];
        }
      }
    }
  }

  lemma SetReferenceColumnsKeeps(db: DB, table: Text, names: seq<Text>)
    requires Integrity(db) && SetReferenceColumns(db, table, names).Success?
    ensures Integrity(SetReferenceColumns(db, table, names).value)
  {
    hide RowOk, NoDuplicates, ColumnIndex, FkOk, CheckRefs, Distinct;
    SetReferenceColumnsAccepts(db, table, names);
    var i := FindTable(db, table).value;
    var t := db[i];
    assert TableOk(t) && FksOk(db, t);
    RekeyOk(db, i, t.(schema := t.schema.(refCols := names)));
  }

  // ---- tables --------------------------------------------------------------------------------------

  lemma {:induction false} FindAppended(db: DB, t: TableState, name: Text)
    ensures FindTable(db, name).Some? ==> FindTable(db + [t], name) == FindTable(db, name)
  {
    if db != [] {
      FindAppended(db[1..], t, name);
      assert (db + [t])[1..] == db[1..] + [t];
    }
  }

  lemma CreateTableKeeps(db: DB, name: Text)
    requires Integrity(db) && CreateTable(db, name).Success?
    ensures Integrity(CreateTable(db, name).value)
  {
    hide TableOk, FkHolds;
    var t := TableState(Table(name, [], [], []), []);
    var db' := db + [t];
    assert TableOk(t) by {
      NewTableOk(t);
    }
    forall a | 0 <= a < |db'|
      ensures FksOk(db', db'[a])
    {
      if a < |db| {
        assert FksOk(db, db[a]);
        forall k | 0 <= k < |db[a].schema.fks|
          ensures FkOk(db', db[a], db[a].schema.fks[k])
        {
          assert FkOk(db, db[a], db[a].schema.fks[k]);
          FindAppended(db, t, db[a].schema.fks[k].toTable);
        }
      }
    }
  }

  lemma NewTableOk(t: TableState)
    requires t.schema.columns == [] && t.schema.fks == [] && t.schema.refCols == [] && t.rows == []
    ensures TableOk(t)
  {
  }

  lemma FindWithout(db: DB, i: nat, name: Text)
    requires DistinctTables(db) && i < |db| && FindTable(db, name).Some? && FindTable(db, name) != Some(i)
    ensures var j := FindTable(db, name).value; FindTable(Without(db, i), name) == Some(if j < i then j else j - 1)
  {
    hide FindTable, DistinctTables;
    var j := FindTable(db, name).value;
    assert Without(db, i)[if j < i then j else j - 1] == db[j];
    WithoutDistinct(db, i);
    FindDistinct(Without(db, i), if j < i then j else j - 1);
  }

  lemma WithoutDistinct(db: DB, i: nat)
    requires DistinctTables(db) && i < |db|
    ensures DistinctTables(Without(db, i))
  {
    var left := Without(db, i);
    assert forall k :: 0 <= k < |left| ==> left[k] == db[if k < i then k else k + 1];
  }

  lemma DropTableKeeps(db: DB, name: Text)
    requires Integrity(db) && DropTable(db, name).Success?
    ensures Integrity(DropTable(db, name).value)
  {
    hide TableOk, FkHolds;
    var i := FindTable(db, name).value;
    var db' := Without(db, i);
    assert forall k :: 0 <= k < |db'| ==> db'[k] == db[if k < i then k else k + 1];
    forall a | 0 <= a < |db'|
      ensures FksOk(db', db'[a])
    {
      var b := if a < i then a else a + 1;
      forall k | 0 <= k < |db'[a].schema.fks|
        ensures FkOk(db', db'[a], db'[a].schema.fks[k])
      {
        var f := db[b].schema.fks[k];
        OldKey(db, b, k);
        assert !PointsInto(db[b].schema.fks, name);
        FindWithout(db, i, f.toTable);
      }
    }
  }
}
