/** What every operation does to a database, said of its result, and exactly when it is refused. */
module Effects {
  import opened Errors
  import opened Bytes
  import opened Bignum
  import opened Codec
  import opened Schema
  import opened Chains
  import opened Relational
  import opened RowIntegrity
  import opened SchemaEdits
  import opened Engine

  // ---- ways to change a sequence ----------------------------------------------------------------

  /** `ys` is `xs` without its element `p`. */
  ghost predicate LeftOut<T>(xs: seq<T>, p: nat, ys: seq<T>) {
    p < |xs| && |ys| == |xs| - 1 && forall k :: 0 <= k < |ys| ==> ys[k] == xs[if k < p then k else k + 1]
  }

  /** `ys` is `xs` with `x` behind it. */
  ghost predicate Extended<T>(xs: seq<T>, x: T, ys: seq<T>) {
    |ys| == |xs| + 1 && xs <= ys && ys[|xs|] == x
  }

  /** `ys` is `xs` with `y` in place of its element `p`. */
  ghost predicate Replaced<T>(xs: seq<T>, p: nat, y: T, ys: seq<T>) {
    p < |xs| && |ys| == |xs| && forall k :: 0 <= k < |xs| ==> ys[k] == if k == p then y else xs[k]
  }

  /** `ys` is `xs` with its element `p` taken out and put back as element `q`. */
  ghost predicate Shifted<T(!new)>(xs: seq<T>, p: nat, q: nat, ys: seq<T>) {
    p < |xs| && q < |ys| && ys[q] == xs[p] && exists rest: seq<T> :: LeftOut(xs, p, rest) && LeftOut(ys, q, rest)
  }

  lemma WithoutLeaves<T>(xs: seq<T>, p: nat)
    requires p < |xs|
    ensures LeftOut(xs, p, Without(xs, p))
  {
  }

  lemma MovedShifts<T(!new)>(xs: seq<T>, p: nat, q: nat)
    requires p < |xs| && q < |xs|
    ensures Shifted(xs, p, q, Moved(xs, p, q))
  {
    var rest := Without(xs, p);
    assert LeftOut(xs, p, rest) && LeftOut(Moved(xs, p, q), q, rest);
  }

  /** Only table `i` has changed, and only into `t`. */
  ghost predicate OneTable(db: DB, i: nat, t: TableState, db': DB) {
    Replaced(db, i, t, db')
  }

  /** Nothing of a schema but its columns and label has changed. */
  ghost predicate SameKeys(t: Table, t': Table) {
    t'.name == t.name && t'.fks == t.fks
  }

  // ---- rows ---------------------------------------------------------------------------------------

  /** The cells fit the schema, repeat no UNIQUE value of another row, and refer to rows that exist. */
  ghost predicate Acceptable(db: DB, i: nat, cells: Row, exclude: Option<RowId>) {
    i < |db| && var t := db[i].schema;
      && RowOk(t.columns, cells)
      && (forall m :: 0 <= m < |t.columns| && t.columns[m].unique && cells[m].Some? ==>
            !HasValue(db[i].rows, m, cells[m].value, exclude))
      && forall m :: 0 <= m < |t.fks| ==> KeyFound(db, i, cells, exclude, m)
  }

  /** No other row needs a value that row `id` of table `i` gives up. */
  ghost predicate Unneeded(db: DB, i: nat, id: RowId, row: Row, cells: Option<Row>)
    requires Integrity(db)
  {
    i < |db| && forall a, m ::
      0 <= a < |db| && 0 <= m < |db[a].schema.fks| && db[a].schema.fks[m].toTable == db[i].schema.name ==>
      NotNeeded(db, i, id, row, cells, a, m)
  }

  lemma AcceptableMeans(db: DB, i: nat, cells: Row, exclude: Option<RowId>)
    requires i < |db| && forall c :: c in cells ==> Storable(c)
    ensures Validate(db, i, cells, exclude).Success? <==> Acceptable(db, i, cells, exclude)
  {
    hide Validate, RowOk, KeyFound, HasValue;
    ValidateMeans(db, i, cells, exclude);
  }

  lemma UnneededMeans(db: DB, i: nat, id: RowId, row: Row, cells: Option<Row>)
    requires Integrity(db) && i < |db|
    ensures Restrict(db, i, id, row, cells, 0).None? <==> Unneeded(db, i, id, row, cells)
  {
    hide Integrity, NotNeeded, Restrict;
    RestrictMeans(db, i, id, row, cells, 0);
  }

  /** The row goes to the end of its table. */
  lemma InsertMeans(db: DB, table: Text, cells: Row, id: RowId)
    requires forall c :: c in cells ==> Storable(c)
    ensures Insert(db, table, cells, id).Success? <==>
      FindTable(db, table).Some? && Acceptable(db, FindTable(db, table).value, cells, None)
    ensures Insert(db, table, cells, id).Success? ==>
      var i, db' := FindTable(db, table).value, Insert(db, table, cells, id).value;
      && i < |db'| && OneTable(db, i, db'[i], db') && db'[i].schema == db[i].schema
      && Extended(db[i].rows, (id, cells), db'[i].rows)
  {
    hide Validate, Acceptable, Storable, FindTable;
    if FindTable(db, table).Some? {
      AcceptableMeans(db, FindTable(db, table).value, cells, None);
    }
  }

  /** The row with the handle gets the cells, and no other row changes or moves. */
  lemma UpdateMeans(db: DB, table: Text, id: RowId, cells: Row)
    requires Integrity(db) && forall c :: c in cells ==> Storable(c)
    ensures Update(db, table, id, cells).Success? <==>
      && FindTable(db, table).Some?
      && var i := FindTable(db, table).value; var k := FindRow(db[i].rows, id);
        k.Some? && Acceptable(db, i, cells, Some(id)) && Unneeded(db, i, id, db[i].rows[k.value].1, Some(cells))
    ensures Update(db, table, id, cells).Success? ==>
      var i, db' := FindTable(db, table).value, Update(db, table, id, cells).value;
      && i < |db'| && OneTable(db, i, db'[i], db') && db'[i].schema == db[i].schema
      && |db'[i].rows| == |db[i].rows|
      && (exists k :: 0 <= k < |db[i].rows| && db[i].rows[k].0 == id)
      && forall k :: 0 <= k < |db[i].rows| ==>
           db'[i].rows[k] == if db[i].rows[k].0 == id then (id, cells) else db[i].rows[k]
  {
    hide Validate, Acceptable, Unneeded, Restrict, RowOk, NoDuplicates, FksOk, RefColsOk, FindTable, DistinctTables;
    var i := FindTable(db, table);
    if i.Some? {
      AcceptableMeans(db, i.value, cells, Some(id));
      assert TableOk(db[i.value]);
      var k := FindRow(db[i.value].rows, id);
      if k.Some? {
        UnneededMeans(db, i.value, id, db[i.value].rows[k.value].1, Some(cells));
      }
    }
  }

  /** The row with the handle is gone, and all others are as they were, in their old order. */
  lemma DeleteMeans(db: DB, table: Text, id: RowId)
    requires Integrity(db)
    ensures Delete(db, table, id).Success? <==>
      && FindTable(db, table).Some?
      && var i := FindTable(db, table).value; var k := FindRow(db[i].rows, id);
        k.Some? && Unneeded(db, i, id, db[i].rows[k.value].1, None)
    ensures Delete(db, table, id).Success? ==>
      var i, db' := FindTable(db, table).value, Delete(db, table, id).value;
      && i < |db'| && OneTable(db, i, db'[i], db') && db'[i].schema == db[i].schema
      && FindRow(db'[i].rows, id).None?
      && (forall x :: x in db'[i].rows <==> x in db[i].rows && x.0 != id)
      && exists p :: 0 <= p < |db[i].rows| && db[i].rows[p].0 == id && LeftOut(db[i].rows, p, db'[i].rows)
  {
    hide Unneeded, Restrict, RowOk, NoDuplicates, FksOk, RefColsOk, FindTable, DistinctTables;
    var i := FindTable(db, table);
    if i.Some? {
      assert TableOk(db[i.value]);
      var rows := db[i.value].rows;
      var k := FindRow(rows, id);
      if k.Some? {
        UnneededMeans(db, i.value, id, rows[k.value].1, None);
        if Delete(db, table, id).Success? {
          RowLeftOut(rows, id, k.value, Delete(db, table, id).value[i.value].rows);
        }
      }
    }
  }

  lemma RowLeftOut(rows: Rows, id: RowId, p: nat, left: Rows)
    requires DistinctIds(rows) && p < |rows| && rows[p].0 == id && left == rows[..p] + rows[p + 1..]
    ensures LeftOut(rows, p, left) && FindRow(left, id).None?
    ensures forall x :: x in left <==> x in rows && x.0 != id
  {
    forall x | x in rows && x.0 != id
      ensures x in left
    {
      var k :| 0 <= k < |rows| && rows[k] == x;
      assert left[if k < p then k else k - 1] == x;
    }
  }

  // ---- why a row is refused ------------------------------------------------------------------------

  /** The error names column `m`, which is NULL and must not be; or its value has another type. */
  ghost predicate CellRefusal(cols: seq<Column>, cells: Row, e: StoreError, m: nat) {
    && m < |cols| == |cells| && !CellFits(cols, cells, m)
    && if cells[m].None? then e == NullViolation(cols[m].name) else e.Parse?
  }

  ghost predicate CellFits(cols: seq<Column>, cells: Row, m: nat) {
    m < |cols| == |cells| && if cells[m].None? then cols[m].nullable else cells[m].value.TypeOf() == cols[m].ty
  }

  /** The error names column `m`, which is UNIQUE and has the value in another row. */
  ghost predicate UniqueRefusal(cols: seq<Column>, rows: Rows, cells: Row, exclude: Option<RowId>, e: StoreError,
                                m: nat) {
    m < |cols| && Repeats(cols, rows, cells, exclude, m) && e == UniqueViolation(cols[m].name)
  }

  ghost predicate Repeats(cols: seq<Column>, rows: Rows, cells: Row, exclude: Option<RowId>, m: nat) {
    && m < |cols| == |cells| && cols[m].unique && cells[m].Some?
    && HasValue(rows, m, cells[m].value, exclude)
  }

  lemma {:induction false} CellRefused(cols: seq<Column>, cells: Row, k: nat) returns (m: nat)
    requires |cells| == |cols| && k <= |cols| && CheckCells(cols, cells, k).Failure?
    ensures CellRefusal(cols, cells, CheckCells(cols, cells, k).error, m)
    ensures forall n :: k <= n < m ==> CellFits(cols, cells, n)
    decreases |cols| - k
  {
    m := k;
    if CellFits(cols, cells, k) {
      m := CellRefused(cols, cells, k + 1);
    }
  }

  lemma {:induction false} UniqueRefused(cols: seq<Column>, rows: Rows, cells: Row, exclude: Option<RowId>, k: nat)
    returns (m: nat)
    requires |cells| == |cols| && k <= |cols| && CheckUnique(cols, rows, cells, exclude, k).Failure?
    ensures UniqueRefusal(cols, rows, cells, exclude, CheckUnique(cols, rows, cells, exclude, k).error, m)
    ensures forall n :: k <= n < m ==> !Repeats(cols, rows, cells, exclude, n)
    decreases |cols| - k
  {
    hide HasValue;
    m := k;
    if !Repeats(cols, rows, cells, exclude, k) {
      m := UniqueRefused(cols, rows, cells, exclude, k + 1);
    }
  }

  lemma {:induction false} FkRefused(db: DB, ti: nat, cells: Row, exclude: Option<RowId>, k: nat) returns (m: nat)
    requires Integrity(db) && ti < |db| && |cells| == |db[ti].schema.columns| && k <= |db[ti].schema.fks|
    requires CheckFks(db, ti, cells, exclude, k).Failure?
    ensures m < |db[ti].schema.fks| && !KeyFound(db, ti, cells, exclude, m)
    ensures CheckFks(db, ti, cells, exclude, k).error == ForeignKeyViolation(db[ti].schema.fks[m].name)
    ensures forall n :: k <= n < m ==> KeyFound(db, ti, cells, exclude, n)
    decreases |db[ti].schema.fks| - k
  {
    hide HasTarget, Integrity;
    OldKey(db, ti, k);
    m := k;
    if KeyFound(db, ti, cells, exclude, k) {
      m := FkRefused(db, ti, cells, exclude, k + 1);
    }
  }

  /** Why a row is refused: the number of cells; the first cell that does not fit; else the first UNIQUE column whose
      value is there already; else the first key that finds no row. The error names that column or key. */
  ghost predicate RowRefusal(db: DB, i: nat, cells: Row, exclude: Option<RowId>, e: StoreError) {
    i < |db| && var t, rows := db[i].schema, db[i].rows;
      || (|cells| != |t.columns| && e.Parse?)
      || (exists m: nat :: CellRefusal(t.columns, cells, e, m)
            && forall n :: 0 <= n < m ==> CellFits(t.columns, cells, n))
      || (&& (forall n :: 0 <= n < |t.columns| ==> CellFits(t.columns, cells, n))
          && exists m: nat :: UniqueRefusal(t.columns, rows, cells, exclude, e, m)
               && forall n :: 0 <= n < m ==> !Repeats(t.columns, rows, cells, exclude, n))
      || (&& (forall n :: 0 <= n < |t.columns| ==> CellFits(t.columns, cells, n))
          && (forall n :: 0 <= n < |t.columns| ==> !Repeats(t.columns, rows, cells, exclude, n))
          && exists m: nat :: KeyRefusal(db, i, cells, exclude, e, m)
               && forall n :: 0 <= n < m ==> KeyFound(db, i, cells, exclude, n))
  }

  ghost predicate KeyRefusal(db: DB, i: nat, cells: Row, exclude: Option<RowId>, e: StoreError, m: nat) {
    && i < |db| && m < |db[i].schema.fks| && !KeyFound(db, i, cells, exclude, m)
    && e == ForeignKeyViolation(db[i].schema.fks[m].name)
  }

  lemma ValidateRefuses(db: DB, i: nat, cells: Row, exclude: Option<RowId>)
    requires Integrity(db) && i < |db| && Validate(db, i, cells, exclude).Failure?
    ensures RowRefusal(db, i, cells, exclude, Validate(db, i, cells, exclude).error)
  {
    hide KeyFound, HasValue, Integrity;
    var cols, rows, e := db[i].schema.columns, db[i].rows, Validate(db, i, cells, exclude).error;
    if |cells| == |cols| {
      if CheckCells(cols, cells, 0).Failure? {
        var m := CellRefused(cols, cells, 0);
        assert CellRefusal(cols, cells, e, m);
      } else {
        CellsChecked(cols, cells, 0);
        assert forall n :: 0 <= n < |cols| ==> CellFits(cols, cells, n);
        if CheckUnique(cols, rows, cells, exclude, 0).Failure? {
          var m := UniqueRefused(cols, rows, cells, exclude, 0);
          assert UniqueRefusal(cols, rows, cells, exclude, e, m);
        } else {
          UniqueChecked(cols, rows, cells, exclude, 0);
          assert forall n :: 0 <= n < |cols| ==> !Repeats(cols, rows, cells, exclude, n);
          var m := FkRefused(db, i, cells, exclude, 0);
          assert KeyRefusal(db, i, cells, exclude, e, m);
        }
      }
    }
  }

  /** Key `m` of table `a` leads some other row to a value the row gives up. */
  ghost predicate Blocks(db: DB, i: nat, id: RowId, row: Row, cells: Option<Row>, a: nat, m: nat)
    requires Integrity(db) && i < |db|
  {
    && a < |db| && m < |db[a].schema.fks| && db[a].schema.fks[m].toTable == db[i].schema.name
    && !NotNeeded(db, i, id, row, cells, a, m)
  }

  lemma {:induction false} KeyBlocks(db: DB, i: nat, id: RowId, row: Row, cells: Option<Row>, j: nat, k: nat)
    returns (m: nat)
    requires Integrity(db) && i < |db| && j < |db| && k <= |db[j].schema.fks|
    requires RestrictFks(db, i, id, row, cells, j, k).Some?
    ensures Blocks(db, i, id, row, cells, j, m)
    ensures RestrictFks(db, i, id, row, cells, j, k) == Some(db[j].schema.fks[m].name)
    ensures forall n: nat :: k <= n < m ==> !Blocks(db, i, id, row, cells, j, n)
    decreases |db[j].schema.fks| - k
  {
    hide Integrity, HasValue;
    if db[j].schema.fks[k].toTable == db[i].schema.name {
      TargetFound(db, i, j, k);
    }
    m := k;
    if !Blocks(db, i, id, row, cells, j, k) {
      m := KeyBlocks(db, i, id, row, cells, j, k + 1);
    }
  }

  lemma NoneBlocks(db: DB, i: nat, id: RowId, row: Row, cells: Option<Row>, j: nat)
    requires Integrity(db) && i < |db| && j < |db| && RestrictFks(db, i, id, row, cells, j, 0).None?
    ensures forall n: nat :: !Blocks(db, i, id, row, cells, j, n)
  {
    hide Integrity, NotNeeded;
    RestrictFksMeans(db, i, id, row, cells, j, 0);
  }

  /** A change that is blocked names the first key, by table and then by key, that needs the old value. */
  lemma {:induction false} RestrictNames(db: DB, i: nat, id: RowId, row: Row, cells: Option<Row>, j: nat)
    returns (a: nat, m: nat)
    requires Integrity(db) && i < |db| && j <= |db| && Restrict(db, i, id, row, cells, j).Some?
    ensures j <= a < |db| && m < |db[a].schema.fks|
    ensures Restrict(db, i, id, row, cells, j) == Some(db[a].schema.fks[m].name)
    ensures FirstBlock(db, i, id, row, cells, j, a, m)
    decreases |db| - j
  {
    hide Integrity, Blocks, RestrictFks;
    if RestrictFks(db, i, id, row, cells, j, 0).Some? {
      a := j;
      m := KeyBlocks(db, i, id, row, cells, j, 0);
      BlockPlace(db, i, id, row, cells, a, m);
    } else {
      NoneBlocks(db, i, id, row, cells, j);
      a, m := RestrictNames(db, i, id, row, cells, j + 1);
    }
  }

  /** Key `m` of table `a` blocks, and none before it from table `j` on does. */
  ghost predicate FirstBlock(db: DB, i: nat, id: RowId, row: Row, cells: Option<Row>, j: nat, a: nat, m: nat)
    requires Integrity(db) && i < |db|
  {
    && Blocks(db, i, id, row, cells, a, m)
    && (forall b: nat, n: nat :: j <= b < a ==> !Blocks(db, i, id, row, cells, b, n))
    && forall n: nat :: n < m ==> !Blocks(db, i, id, row, cells, a, n)
  }

  lemma BlockPlace(db: DB, i: nat, id: RowId, row: Row, cells: Option<Row>, a: nat, m: nat)
    requires Integrity(db) && i < |db| && Blocks(db, i, id, row, cells, a, m)
    ensures a < |db| && m < |db[a].schema.fks|
  {
  }

  /** A refused delete of a row that exists names the first key that needs it. */
  lemma DeleteRefuses(db: DB, table: Text, id: RowId) returns (a: nat, m: nat)
    requires Integrity(db) && FindTable(db, table).Some? && Delete(db, table, id).Failure?
    requires FindRow(db[FindTable(db, table).value].rows, id).Some?
    ensures var i := FindTable(db, table).value; var row := db[i].rows[FindRow(db[i].rows, id).value].1;
      a < |db| && m < |db[a].schema.fks| && FirstBlock(db, i, id, row, None, 0, a, m)
    ensures Delete(db, table, id).error == ForeignKeyViolation(db[a].schema.fks[m].name)
  {
    hide Integrity, FirstBlock, Restrict;
    var i := FindTable(db, table).value;
    a, m := RestrictNames(db, i, id, db[i].rows[FindRow(db[i].rows, id).value].1, None, 0);
  }

  /** A refused update: the new cells are refused; else there is no such row; else the first key that needs an old value
      is named. */
  lemma UpdateRefuses(db: DB, table: Text, id: RowId, cells: Row) returns (a: nat, m: nat)
    requires Integrity(db) && FindTable(db, table).Some? && Update(db, table, id, cells).Failure?
    ensures var e, i := Update(db, table, id, cells).error, FindTable(db, table).value;
      var k := FindRow(db[i].rows, id);
      || RowRefusal(db, i, cells, Some(id), e)
      || (k.None? && e.NotFound?)
      || (&& k.Some? && a < |db| && m < |db[a].schema.fks|
          && FirstBlock(db, i, id, db[i].rows[k.value].1, Some(cells), 0, a, m)
          && e == ForeignKeyViolation(db[a].schema.fks[m].name))
  {
    hide Integrity, FirstBlock, Restrict, Validate, RowRefusal;
    var i := FindTable(db, table).value;
    var k := FindRow(db[i].rows, id);
    a, m := 0, 0;
    if Validate(db, i, cells, Some(id)).Failure? {
      ValidateRefuses(db, i, cells, Some(id));
    } else if k.Some? {
      a, m := RestrictNames(db, i, id, db[i].rows[k.value].1, Some(cells), 0);
    }
  }

  // ---- tables ---------------------------------------------------------------------------------------

  /** A table without columns, keys, label or rows comes last. */
  lemma CreateTableMeans(db: DB, name: Text)
    ensures CreateTable(db, name).Success? <==> name != [] && FindTable(db, name).None?
    ensures CreateTable(db, name).Success? ==>
      Extended(db, TableState(Table(name, [], [], []), []), CreateTable(db, name).value)
    ensures CreateTable(db, name).Failure? && name != [] ==> CreateTable(db, name).error.Duplicate?
  {
  }

  /** The table goes, unless a key of another table points into it; all others stay as they were. */
  lemma DropTableMeans(db: DB, name: Text)
    requires Integrity(db)
    ensures DropTable(db, name).Success? <==>
      && FindTable(db, name).Some?
      && forall j, k :: 0 <= j < |db| && j != FindTable(db, name).value && 0 <= k < |db[j].schema.fks| ==>
           db[j].schema.fks[k].toTable != name
    ensures DropTable(db, name).Success? ==>
      var db' := DropTable(db, name).value;
      LeftOut(db, FindTable(db, name).value, db') && FindTable(db', name).None?
    ensures DropTable(db, name).Failure? ==>
      DropTable(db, name).error.NotFound? == FindTable(db, name).None?
  {
    hide TableOk, FksOk;
    var i := FindTable(db, name);
    if i.Some? {
      WithoutLeaves(db, i.value);
      if forall j, k :: 0 <= j < |db| && j != i.value && 0 <= k < |db[j].schema.fks| ==>
          db[j].schema.fks[k].toTable != name {
        assert forall j :: 0 <= j < |db| && j != i.value ==> !PointsInto(db[j].schema.fks, name);
      } else {
        var j, k :| 0 <= j < |db| && j != i.value && 0 <= k < |db[j].schema.fks| && db[j].schema.fks[k].toTable == name;
        assert PointsInto(db[j].schema.fks, name);
      }
    }
  }

  // ---- columns ---------------------------------------------------------------------------------------

  /** Table `i` of `db` and what it became, nothing else having changed. */
  ghost predicate Became(db: DB, table: Text, db': DB, t: TableState, t': TableState) {
    && FindTable(db, table).Some?
    && var i := FindTable(db, table).value; t == db[i] && OneTable(db, i, t', db')
  }

  /** The column comes last, and every row gets a NULL for it. */
  lemma AddColumnMeans(db: DB, table: Text, col: Column)
    ensures AddColumn(db, table, col).Success? <==>
      && FindTable(db, table).Some?
      && var t := db[FindTable(db, table).value];
        (col.nullable || t.rows == []) && ColumnIndex(t.schema.columns, col.name).None?
    ensures AddColumn(db, table, col).Success? ==>
      exists t, t' :: Became(db, table, AddColumn(db, table, col).value, t, t')
        && SameKeys(t.schema, t'.schema) && t'.schema.refCols == t.schema.refCols
        && Extended(t.schema.columns, col, t'.schema.columns) && |t'.rows| == |t.rows|
        && forall k :: 0 <= k < |t.rows| ==>
             t'.rows[k].0 == t.rows[k].0 && Extended(t.rows[k].1, None, t'.rows[k].1)
  {
    hide FindTable, ColumnIndex;
    if AddColumn(db, table, col).Success? {
      var i := FindTable(db, table).value;
      var t, t' := db[i], WithNewColumn(db[i], col);
      assert Became(db, table, AddColumn(db, table, col).value, t, t');
      assert forall k :: 0 <= k < |t.rows| ==> t'.rows[k] == (t.rows[k].0, AppendNull(t.rows[k].1));
    }
  }

  /** The column goes, with every row's cell for it and from the label, unless a key starts or ends in it. */
  lemma DropColumnMeans(db: DB, table: Text, col: Text)
    requires Integrity(db)
    ensures DropColumn(db, table, col).Success? <==>
      && FindTable(db, table).Some?
      && var t := db[FindTable(db, table).value].schema;
        && ColumnIndex(t.columns, col).Some?
        && (forall k :: 0 <= k < |t.fks| ==> t.fks[k].fromCol != col)
        && forall j, k :: 0 <= j < |db| && 0 <= k < |db[j].schema.fks| ==>
             !(db[j].schema.fks[k].toTable == table && db[j].schema.fks[k].toCol == col)
    ensures DropColumn(db, table, col).Success? ==>
      exists t, t', p :: Became(db, table, DropColumn(db, table, col).value, t, t')
        && SameKeys(t.schema, t'.schema) && 0 <= p < |t.schema.columns| && t.schema.columns[p].name == col
        && LeftOut(t.schema.columns, p, t'.schema.columns)
        && (if col in t.schema.refCols
            then exists q :: 0 <= q < |t.schema.refCols| && t.schema.refCols[q] == col
                   && LeftOut(t.schema.refCols, q, t'.schema.refCols)
            else t'.schema.refCols == t.schema.refCols)
        && |t'.rows| == |t.rows|
        && forall k :: 0 <= k < |t.rows| ==>
             t'.rows[k].0 == t.rows[k].0 && LeftOut(t.rows[k].1, p, t'.rows[k].1)
  {
    hide FindTable, ColumnIndex, Integrity, Remove;
    DropColumnAccepted(db, table, col);
    if DropColumn(db, table, col).Success? {
      var i := FindTable(db, table).value;
      var t := db[i];
      var p := ColumnIndex(t.schema.columns, col).value;
      var t' := WithoutColumn(t, p, col);
      assert Became(db, table, DropColumn(db, table, col).value, t, t');
      TableIntact(db, i);
      WithoutLeaves(t.schema.columns, p);
      if col in t.schema.refCols {
        var q := RemoveLeaves(t.schema.refCols, col);
      } else {
        RemoveNone(t.schema.refCols, col);
      }
      forall k | 0 <= k < |t.rows|
        ensures t'.rows[k].0 == t.rows[k].0 && LeftOut(t.rows[k].1, p, t'.rows[k].1)
      {
        assert t'.rows[k] == (t.rows[k].0, CutCell(t.rows[k].1, p));
        WithoutLeaves(t.rows[k].1, p);
      }
    }
  }

  lemma DropColumnAccepted(db: DB, table: Text, col: Text)
    ensures DropColumn(db, table, col).Success? <==>
      && FindTable(db, table).Some?
      && var t := db[FindTable(db, table).value].schema;
        && ColumnIndex(t.columns, col).Some?
        && (forall k :: 0 <= k < |t.fks| ==> t.fks[k].fromCol != col)
        && forall j, k :: 0 <= j < |db| && 0 <= k < |db[j].schema.fks| ==>
             !(db[j].schema.fks[k].toTable == table && db[j].schema.fks[k].toCol == col)
  {
    hide FindTable, ColumnIndex, WithoutColumn;
    NotTargeted(db, table, col);
  }

  lemma NotTargeted(db: DB, table: Text, col: Text)
    ensures !Targeted(db, table, col) <==>
      forall j, k :: 0 <= j < |db| && 0 <= k < |db[j].schema.fks| ==>
        !(db[j].schema.fks[k].toTable == table && db[j].schema.fks[k].toCol == col)
  {
    forall j, k | 0 <= j < |db| && 0 <= k < |db[j].schema.fks| &&
      db[j].schema.fks[k].toTable == table && db[j].schema.fks[k].toCol == col
      ensures PointsAt(db[j].schema.fks, table, col)
    {
    }
  }

  /** With integrity, rows have the schema's length and label columns differ. */
  lemma TableIntact(db: DB, i: nat)
    requires Integrity(db) && i < |db|
    ensures forall k :: 0 <= k < |db[i].rows| ==> |db[i].rows[k].1| == |db[i].schema.columns|
    ensures Distinct(db[i].schema.refCols) && DistinctFks(db[i].schema.fks) && DistinctColumns(db[i].schema.columns)
  {
    hide FksOk, DistinctTables, NoDuplicates, DistinctIds, CellOk;
    assert TableOk(db[i]);
    forall k | 0 <= k < |db[i].rows|
      ensures |db[i].rows[k].1| == |db[i].schema.columns|
    {
      assert RowOk(db[i].schema.columns, db[i].rows[k].1);
    }
  }

  lemma {:induction false} RemoveNone(names: seq<Text>, n: Text)
    requires n !in names
    ensures Remove(names, n) == names
  {
    if names != [] {
      assert names == [names[0]] + names[1..];
      RemoveNone(names[1..], n);
    }
  }

  lemma {:induction false} RemoveLeaves(names: seq<Text>, n: Text) returns (q: nat)
    requires Distinct(names) && n in names
    ensures q < |names| && names[q] == n && LeftOut(names, q, Remove(names, n))
  {
    assert names == [names[0]] + names[1..];
    if names[0] == n {
      q := 0;
      assert n !in names[1..];
      RemoveNone(names[1..], n);
    } else {
      q := RemoveLeaves(names[1..], n);
      LeftOutBehind(names, q, Remove(names[1..], n));
      q := q + 1;
    }
  }

  lemma LeftOutBehind<T>(xs: seq<T>, q: nat, ys: seq<T>)
    requires xs != [] && LeftOut(xs[1..], q, ys)
    ensures LeftOut(xs, q + 1, [xs[0]] + ys)
  {
  }

  /** The column ends up at the place asked for, the others keep their order, and every row's cells move with them. */
  lemma MoveColumnMeans(db: DB, table: Text, col: Text, newIndex: nat)
    requires Integrity(db)
    ensures MoveColumn(db, table, col, newIndex).Success? <==>
      && FindTable(db, table).Some?
      && var cols := db[FindTable(db, table).value].schema.columns; ColumnIndex(cols, col).Some? && newIndex < |cols|
    ensures MoveColumn(db, table, col, newIndex).Success? ==>
      exists t, t', p :: Became(db, table, MoveColumn(db, table, col, newIndex).value, t, t')
        && SameKeys(t.schema, t'.schema) && t'.schema.refCols == t.schema.refCols
        && 0 <= p < |t.schema.columns| && t.schema.columns[p].name == col
        && Shifted(t.schema.columns, p, newIndex, t'.schema.columns) && |t'.rows| == |t.rows|
        && forall k :: 0 <= k < |t.rows| ==>
             t'.rows[k].0 == t.rows[k].0 && Shifted(t.rows[k].1, p, newIndex, t'.rows[k].1)
  {
    hide FindTable, ColumnIndex, Integrity, Moved, Shifted;
    if MoveColumn(db, table, col, newIndex).Success? {
      var i := FindTable(db, table).value;
      var t := db[i];
      var p := ColumnIndex(t.schema.columns, col).value;
      var t' := if newIndex == p then t else WithMovedColumn(t, p, newIndex);
      assert Became(db, table, MoveColumn(db, table, col, newIndex).value, t, t');
      TableIntact(db, i);
      ShiftedEither(t.schema.columns, p, newIndex);
      forall k | 0 <= k < |t.rows|
        ensures t'.rows[k].0 == t.rows[k].0 && Shifted(t.rows[k].1, p, newIndex, t'.rows[k].1)
      {
        var row := t.rows[k].1;
        assert Fitted(row, |t.schema.columns|) == row;
        assert newIndex != p ==> t'.rows[k] == (t.rows[k].0, Moved(row, p, newIndex));
        ShiftedEither(row, p, newIndex);
      }
    }
  }

  lemma ShiftedEither<T(!new)>(xs: seq<T>, p: nat, q: nat)
    requires p < |xs| && q < |xs|
    ensures Shifted(xs, p, q, Moved(xs, p, q)) && (p == q ==> Shifted(xs, p, q, xs))
  {
    MovedShifts(xs, p, q);
    WithoutLeaves(xs, p);
  }

  /** Column `p` of the table, and nothing else, has changed, into `c`. */
  ghost predicate OneColumn(t: TableState, p: nat, c: Column, t': TableState) {
    && SameKeys(t.schema, t'.schema) && t'.schema.refCols == t.schema.refCols && t'.rows == t.rows
    && Replaced(t.schema.columns, p, c, t'.schema.columns)
  }

  /** The flag of that column alone is set, unless values would repeat or a key would lose its target. */
  lemma SetUniqueMeans(db: DB, table: Text, col: Text, unique: bool)
    ensures SetUnique(db, table, col, unique).Success? <==>
      && FindTable(db, table).Some?
      && var t := db[FindTable(db, table).value]; var p := ColumnIndex(t.schema.columns, col);
        && p.Some?
        && if unique then
             forall j, k :: 0 <= j < k < |t.rows| && CellAt(t.rows[j].1, p.value).Some? ==>
               CellAt(t.rows[j].1, p.value) != CellAt(t.rows[k].1, p.value)
           else
             forall j, k :: 0 <= j < |db| && 0 <= k < |db[j].schema.fks| ==>
               !(db[j].schema.fks[k].toTable == table && db[j].schema.fks[k].toCol == col)
    ensures SetUnique(db, table, col, unique).Success? ==>
      exists t, t', p, c :: Became(db, table, SetUnique(db, table, col, unique).value, t, t')
        && 0 <= p < |t.schema.columns| && t.schema.columns[p].name == col && OneColumn(t, p, c, t')
        && c.unique == unique
        && c.(unique := t.schema.columns[p].unique) == t.schema.columns[p]
  {
    hide FindTable, ColumnIndex, Targeted;
    NotTargeted(db, table, col);
    if SetUnique(db, table, col, unique).Success? {
      var i := FindTable(db, table).value;
      var p := ColumnIndex(db[i].schema.columns, col).value;
      var c := db[i].schema.columns[p].(unique := unique);
      assert Became(db, table, SetUnique(db, table, col, unique).value, db[i], WithFlags(db[i], p, c));
      assert OneColumn(db[i], p, c, WithFlags(db[i], p, c));
    }
  }

  /** The width of that column alone is set or cleared. */
  lemma SetDisplayWidthMeans(db: DB, table: Text, col: Text, width: Option<u16>)
    ensures SetDisplayWidth(db, table, col, width).Success? <==>
      FindTable(db, table).Some? && ColumnIndex(db[FindTable(db, table).value].schema.columns, col).Some?
    ensures SetDisplayWidth(db, table, col, width).Success? ==>
      exists t, t', p, c :: Became(db, table, SetDisplayWidth(db, table, col, width).value, t, t')
        && 0 <= p < |t.schema.columns| && t.schema.columns[p].name == col && OneColumn(t, p, c, t')
        && c.displayWidth == width
        && c.(displayWidth := t.schema.columns[p].displayWidth) == t.schema.columns[p]
  {
    hide FindTable, ColumnIndex;
    if SetDisplayWidth(db, table, col, width).Success? {
      var i := FindTable(db, table).value;
      var p := ColumnIndex(db[i].schema.columns, col).value;
      var c := db[i].schema.columns[p].(displayWidth := width);
      assert Became(db, table, SetDisplayWidth(db, table, col, width).value, db[i], WithFlags(db[i], p, c));
      assert OneColumn(db[i], p, c, WithFlags(db[i], p, c));
    }
  }

  /** The label is the columns named, in that order. */
  lemma SetReferenceColumnsMeans(db: DB, table: Text, names: seq<Text>)
    requires SetReferenceColumns(db, table, names).Success?
    ensures exists t, t' ::
      && Became(db, table, SetReferenceColumns(db, table, names).value, t, t')
      && SameKeys(t.schema, t'.schema) && t'.schema.columns == t.schema.columns && t'.rows == t.rows
      && t'.schema.refCols == names
  {
    hide FindTable, CheckRefs;
    var i := FindTable(db, table).value;
    var t' := db[i].(schema := db[i].schema.(refCols := names));
    assert Became(db, table, SetReferenceColumns(db, table, names).value, db[i], t');
  }

  // ---- keys ------------------------------------------------------------------------------------------

  /** Columns, label and rows have not changed. */
  ghost predicate OnlyKeys(t: TableState, t': TableState) {
    && t'.schema.name == t.schema.name && t'.schema.columns == t.schema.columns
    && t'.schema.refCols == t.schema.refCols && t'.rows == t.rows
  }

  /** One key is added behind the old ones, between the columns asked for and under a name no old key has. */
  lemma AddFkMeans(db: DB, table: Text, fromCol: Text, toTable: Text, toCol: Text)
    ensures AddFk(db, table, fromCol, toTable, toCol).Success? <==>
      && FindTable(db, table).Some? && FindTable(db, toTable).Some?
      && var t, tt := db[FindTable(db, table).value], db[FindTable(db, toTable).value];
        var p, q := ColumnIndex(t.schema.columns, fromCol), ColumnIndex(tt.schema.columns, toCol);
        && p.Some? && q.Some? && tt.schema.columns[q.value].unique
        && t.schema.columns[p.value].ty == tt.schema.columns[q.value].ty
        && EachFound(t.rows, p.value, tt.rows, q.value)
    ensures AddFk(db, table, fromCol, toTable, toCol).Success? ==>
      exists t, t', f :: Became(db, table, AddFk(db, table, fromCol, toTable, toCol).value, t, t') && OnlyKeys(t, t')
        && Extended(t.schema.fks, f, t'.schema.fks)
        && f.fromCol == fromCol && f.toTable == toTable && f.toCol == toCol
        && FirstFree(t.schema.fks, fromCol, f.name)
  {
    hide FindTable, ColumnIndex, FkName, FirstFree, Matched, EachFound;
    if FindTable(db, table).Some? && FindTable(db, toTable).Some? {
      var t, tt := db[FindTable(db, table).value], db[FindTable(db, toTable).value];
      var p, q := ColumnIndex(t.schema.columns, fromCol), ColumnIndex(tt.schema.columns, toCol);
      if p.Some? && q.Some? {
        MatchedMeans(t.rows, p.value, tt.rows, q.value);
      }
    }
    if AddFk(db, table, fromCol, toTable, toCol).Success? {
      var i := FindTable(db, table).value;
      var t := db[i];
      var f := ForeignKey(FkName(t.schema.fks, fromCol, 0, |t.schema.fks|), fromCol, toTable, toCol);
      var t' := t.(schema := t.schema.(fks := t.schema.fks + [f]));
      NameFound(t.schema.fks, fromCol);
      assert Became(db, table, AddFk(db, table, fromCol, toTable, toCol).value, t, t');
      assert Extended(t.schema.fks, f, t'.schema.fks);
    }
  }

  /** Every value of the one column stands in the other. */
  ghost predicate EachFound(src: Rows, fi: nat, dst: Rows, ti: nat) {
    forall k :: 0 <= k < |src| && CellAt(src[k].1, fi).Some? ==>
      exists m :: 0 <= m < |dst| && CellAt(dst[m].1, ti) == CellAt(src[k].1, fi)
  }

  lemma MatchedMeans(src: Rows, fi: nat, dst: Rows, ti: nat)
    ensures Matched(src, fi, dst, ti) <==> EachFound(src, fi, dst, ti)
  {
    forall k | 0 <= k < |src| && CellAt(src[k].1, fi).Some?
      ensures HasValue(dst, ti, CellAt(src[k].1, fi).value, None) <==>
        exists m :: 0 <= m < |dst| && CellAt(dst[m].1, ti) == CellAt(src[k].1, fi)
    {
    }
  }

  ghost predicate Named(fks: seq<ForeignKey>, name: Text) {
    exists f :: f in fks && f.name == name
  }

  /** `col_fk`, or the first of `col_fk2`, `col_fk3`, … that no key has when those before it are taken. */
  ghost predicate FirstFree(fks: seq<ForeignKey>, col: Text, name: Text) {
    && !Named(fks, name)
    && exists n: nat :: FreeAt(fks, col, name, n)
  }

  ghost predicate FreeAt(fks: seq<ForeignKey>, col: Text, name: Text, n: nat) {
    n != 1 && name == FkCandidate(col, n) && forall m :: 0 <= m < n && m != 1 ==> Named(fks, FkCandidate(col, m))
  }

  lemma TakenIsNamed(fks: seq<ForeignKey>, name: Text)
    ensures FkNameTaken(fks, name) <==> Named(fks, name)
  {
    if FkNameTaken(fks, name) {
      var k :| 0 <= k < |fks| && fks[k].name == name;
      assert fks[k] in fks;
    }
  }

  lemma NameFound(fks: seq<ForeignKey>, col: Text)
    ensures FirstFree(fks, col, FkName(fks, col, 0, |fks|))
  {
    hide FkCandidate, FkName, FkNameTaken, Named;
    FkNameFree(fks, col, 0, |fks|, {});
    var name := FkName(fks, col, 0, |fks|);
    TakenIsNamed(fks, name);
    var n := FirstName(fks, col, 0, |fks|);
    forall m | 0 <= m < n && m != 1
      ensures Named(fks, FkCandidate(col, m))
    {
      TakenIsNamed(fks, FkCandidate(col, m));
    }
    assert FreeAt(fks, col, name, n);
  }

  lemma {:induction false} FirstName(fks: seq<ForeignKey>, col: Text, from: nat, fuel: nat) returns (n: nat)
    requires from != 1 && forall m :: 0 <= m < from && m != 1 ==> FkNameTaken(fks, FkCandidate(col, m))
    ensures n != 1 && FkName(fks, col, from, fuel) == FkCandidate(col, n)
    ensures forall m :: 0 <= m < n && m != 1 ==> FkNameTaken(fks, FkCandidate(col, m))
    decreases fuel
  {
    hide FkCandidate, FkNameTaken;
    n := from;
    if fuel > 0 && FkNameTaken(fks, FkCandidate(col, from)) {
      n := FirstName(fks, col, if from < 2 then 2 else from + 1, fuel - 1);
    }
  }

  /** The counter behind `_fk` is written in decimal. */
  lemma CandidateText(col: Text, n: nat)
    ensures FkCandidate(col, 0) == col + [95, 102, 107]
    ensures n >= 2 ==>
      FkCandidate(col, 0) <= FkCandidate(col, n)
      && var digits := FkCandidate(col, n)[|col| + 3..];
        digits != [] && AllDigits(digits) && digits[0] != 48 && Val(DigitsOf(digits)) == n
  {
    if n >= 2 {
      CounterDigits(n);
      var u := BigUintOf(n);
      assert FkCandidate(col, n)[|col| + 3..] == UintText(u);
      assert u.digits != [];
    }
  }

  /** The key of that name goes; keys, columns, label, rows and all other tables stay. */
  lemma DropFkMeans(db: DB, table: Text, name: Text)
    requires Integrity(db)
    ensures DropFk(db, table, name).Success? <==>
      && FindTable(db, table).Some?
      && exists f :: f in db[FindTable(db, table).value].schema.fks && f.name == name
    ensures DropFk(db, table, name).Success? ==>
      exists t, t', p :: Became(db, table, DropFk(db, table, name).value, t, t') && OnlyKeys(t, t')
        && 0 <= p < |t.schema.fks| && t.schema.fks[p].name == name && LeftOut(t.schema.fks, p, t'.schema.fks)
  {
    hide FindTable, DropNamed, Integrity;
    if FindTable(db, table).Some? {
      var i := FindTable(db, table).value;
      var t := db[i];
      DropNamedShrinks(t.schema.fks, name);
      if DropFk(db, table, name).Success? {
        TableIntact(db, i);
        var p := NamedLeaves(t.schema.fks, name);
        var t' := t.(schema := t.schema.(fks := DropNamed(t.schema.fks, name)));
        assert Became(db, table, DropFk(db, table, name).value, t, t');
      }
    }
  }

  lemma {:induction false} NamedLeaves(fks: seq<ForeignKey>, name: Text) returns (p: nat)
    requires DistinctFks(fks) && exists f :: f in fks && f.name == name
    ensures p < |fks| && fks[p].name == name && LeftOut(fks, p, DropNamed(fks, name))
  {
    assert fks == [fks[0]] + fks[1..];
    if fks[0].name == name {
      p := 0;
      DropNamedShrinks(fks[1..], name);
      NoneNamed(fks[1..], name);
    } else {
      assert DistinctFks(fks[1..]);
      p := NamedLeaves(fks[1..], name);
      LeftOutBehind(fks, p, DropNamed(fks[1..], name));
      p := p + 1;
    }
  }

  lemma {:induction false} NoneNamed(fks: seq<ForeignKey>, name: Text)
    requires forall k :: 0 <= k < |fks| ==> fks[k].name != name
    ensures DropNamed(fks, name) == fks
  {
    if fks != [] {
      NoneNamed(fks[1..], name);
    }
  }

  // ---- renaming ---------------------------------------------------------------------------------------

  /** `n`, or the new name if it was the old one. */
  ghost predicate Follows(n: Text, here: bool, old_: Text, new_: Text, n': Text) {
    n' == if here && n == old_ then new_ else n
  }

  /** Names change where they mean the column, and nothing else does. */
  ghost predicate RenamedIn(t: TableState, table: Text, old_: Text, new_: Text, t': TableState) {
    var here := t.schema.name == table;
    && t'.rows == t.rows && t'.schema.name == t.schema.name
    && |t'.schema.columns| == |t.schema.columns| && |t'.schema.fks| == |t.schema.fks|
    && |t'.schema.refCols| == |t.schema.refCols|
    && (forall k :: 0 <= k < |t.schema.columns| ==>
          && Follows(t.schema.columns[k].name, here, old_, new_, t'.schema.columns[k].name)
          && t'.schema.columns[k].(name := t.schema.columns[k].name) == t.schema.columns[k])
    && (forall k :: 0 <= k < |t.schema.refCols| ==>
          Follows(t.schema.refCols[k], here, old_, new_, t'.schema.refCols[k]))
    && forall k :: 0 <= k < |t.schema.fks| ==>
         var f, f' := t.schema.fks[k], t'.schema.fks[k];
         && f'.name == f.name && f'.toTable == f.toTable
         && Follows(f.fromCol, here, old_, new_, f'.fromCol)
         && Follows(f.toCol, f.toTable == table, old_, new_, f'.toCol)
  }

  /** In every table the column's name changes wherever it stands for it: in columns, labels and both ends of keys. */
  lemma RenameColumnMeans(db: DB, table: Text, old_: Text, new_: Text)
    ensures RenameColumn(db, table, old_, new_).Success? <==>
      && new_ != []
      && (old_ == new_ ||
          (&& FindTable(db, table).Some?
           && var cols := db[FindTable(db, table).value].schema.columns;
             ColumnIndex(cols, old_).Some? && ColumnIndex(cols, new_).None?))
    ensures RenameColumn(db, table, old_, new_).Success? ==>
      var db' := RenameColumn(db, table, old_, new_).value;
      |db'| == |db| && forall i :: 0 <= i < |db| ==> RenamedIn(db[i], table, old_, new_, db'[i])
  {
    hide FindTable, ColumnIndex;
  }

  // ---- refusals -----------------------------------------------------------------------------------------

  ghost predicate NoColumn(db: DB, table: Text, col: Text) {
    FindTable(db, table).None? || ColumnIndex(db[FindTable(db, table).value].schema.columns, col).None?
  }

  ghost predicate HasColumn(db: DB, table: Text, col: Text) {
    FindTable(db, table).Some? && ColumnIndex(db[FindTable(db, table).value].schema.columns, col).Some?
  }

  ghost predicate NoRow(db: DB, table: Text, id: RowId) {
    FindTable(db, table).None? || FindRow(db[FindTable(db, table).value].rows, id).None?
  }

  /** Something the operation names does not exist. */
  ghost predicate Missing(db: DB, op: Op) {
    match op
    case OpCreateTable(_) => false
    case OpDropTable(name) => FindTable(db, name).None?
    case OpAddColumn(table, _) => FindTable(db, table).None?
    case OpDropColumn(table, col) => NoColumn(db, table, col)
    case OpMoveColumn(table, col, _) => NoColumn(db, table, col)
    case OpRenameColumn(table, oldName, _) => NoColumn(db, table, oldName)
    case OpSetUnique(table, col, _) => NoColumn(db, table, col)
    case OpSetDisplayWidth(table, col, _) => NoColumn(db, table, col)
    case OpAddFk(table, fromCol, toTable, toCol) => NoColumn(db, table, fromCol) || NoColumn(db, toTable, toCol)
    case OpDropFk(table, fkName) =>
      FindTable(db, table).None? || !Named(db[FindTable(db, table).value].schema.fks, fkName)
    case OpSetReferenceColumns(table, names) =>
      FindTable(db, table).None? || exists n :: n in names && NoColumn(db, table, n)
    case OpInsert(table, _, _) => FindTable(db, table).None?
    case OpUpdate(table, id, _) => NoRow(db, table, id)
    case OpDelete(table, id) => NoRow(db, table, id)
  }

  /** A name the operation introduces is there already, or is given twice. */
  ghost predicate Taken(db: DB, op: Op) {
    match op
    case OpCreateTable(name) => FindTable(db, name).Some?
    case OpAddColumn(table, column) => HasColumn(db, table, column.name)
    case OpRenameColumn(table, _, newName) => HasColumn(db, table, newName)
    case OpSetReferenceColumns(_, names) => !Distinct(names)
    case _ => false
  }

  ghost predicate OnRows(op: Op) {
    op.OpInsert? || op.OpUpdate? || op.OpDelete?
  }

  /** What a refusal's kind tells: something is missing; a name is taken; or a rule of the operation is broken. */
  ghost predicate Justified(db: DB, op: Op, e: StoreError) {
    match e
    case NotFound(_) => Missing(db, op)
    case Duplicate(_) => Taken(db, op)
    case SchemaRejected(_) => !OnRows(op)
    case ForeignKeyViolation(_) => OnRows(op)
    case NullViolation(_) => op.OpInsert? || op.OpUpdate?
    case UniqueViolation(_) => op.OpInsert? || op.OpUpdate?
    case Parse(_) => op.OpInsert? || op.OpUpdate?
    case _ => false
  }

  lemma {:induction false} RefsRefused(cols: seq<Column>, names: seq<Text>, k: nat)
    requires k <= |names| && CheckRefs(cols, names, k).Failure?
    ensures var e := CheckRefs(cols, names, k).error;
      || (e.NotFound? && exists n :: n in names && ColumnIndex(cols, n).None?)
      || (e.Duplicate? && !Distinct(names))
    decreases |names| - k
  {
    hide ColumnIndex;
    if ColumnIndex(cols, names[k]).Some? && names[k] !in names[..k] {
      RefsRefused(cols, names, k + 1);
    } else if ColumnIndex(cols, names[k]).Some? {
      var j :| 0 <= j < k && names[..k][j] == names[k];
      assert names[j] == names[k] && !Distinct(names);
    } else {
      assert names[k] in names && ColumnIndex(cols, names[k]).None?;
    }
  }

  lemma RowsRefused(db: DB, op: Op)
    requires Integrity(db) && OnRows(op) && Outcome(db, op).Failure?
    ensures Justified(db, op, Outcome(db, op).error)
  {
    hide Integrity, FindTable, FindRow, Validate, Restrict, KeyFound, HasValue, CellFits, Repeats;
    if FindTable(db, op.table).Some? {
      var i := FindTable(db, op.table).value;
      if op.OpInsert? && Validate(db, i, op.cells, None).Failure? {
        ValidateRefuses(db, i, op.cells, None);
      }
      if op.OpUpdate? && Validate(db, i, op.cells, Some(op.id)).Failure? {
        ValidateRefuses(db, i, op.cells, Some(op.id));
      }
    }
  }

  lemma KeysRefused(db: DB, op: Op)
    requires Integrity(db) && (op.OpDropFk? || op.OpSetReferenceColumns?) && Outcome(db, op).Failure?
    ensures Justified(db, op, Outcome(db, op).error)
  {
    hide Integrity, FindTable, ColumnIndex, CheckRefs, DropNamed;
    if FindTable(db, op.table).Some? {
      var t := db[FindTable(db, op.table).value].schema;
      if op.OpSetReferenceColumns? {
        RefsRefused(t.columns, op.names, 0);
      } else {
        DropNamedShrinks(t.fks, op.fkName);
      }
    }
  }

  /** Whatever is refused is refused for a reason that holds, and no refusal reports the medium's errors. */
  lemma RefusalMeans(db: DB, op: Op)
    requires Integrity(db) && Outcome(db, op).Failure?
    ensures Justified(db, op, Outcome(db, op).error)
  {
    hide Integrity, FindTable, ColumnIndex, Justified;
    if OnRows(op) {
      RowsRefused(db, op);
    } else if op.OpDropFk? || op.OpSetReferenceColumns? {
      KeysRefused(db, op);
    } else {
      SchemaRefused(db, op);
    }
  }

  lemma SchemaRefused(db: DB, op: Op)
    requires Integrity(db) && !OnRows(op) && !op.OpDropFk? && !op.OpSetReferenceColumns? && Outcome(db, op).Failure?
    ensures Justified(db, op, Outcome(db, op).error)
  {
    hide Integrity, FindTable, ColumnIndex, Targeted, LeavesFrom, NoDuplicates, Matched, FkName;
  }

  /** Nothing is found in a table that does not exist. */
  lemma NoTableRefused(db: DB, op: Op)
    requires Integrity(db) && !op.OpCreateTable? && !op.OpDropTable? && !op.OpRenameColumn?
    requires FindTable(db, op.table).None?
    ensures Outcome(db, op).Failure? && Outcome(db, op).error.NotFound?
  {
    hide Integrity, FindTable;
  }
}
