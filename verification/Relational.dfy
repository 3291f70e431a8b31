/** The relational engine on values: what every operation does to tables, and when it refuses. */
module Relational {
  import opened Errors
  import opened Bytes
  import opened Bignum
  import opened Value
  import opened Codec
  import opened Schema
  import opened Chains

  type Rows = seq<(RowId, Row)>

  datatype TableState = TableState(schema: Table, rows: Rows)

  /** Tables in catalog order. */
  type DB = seq<TableState>

  function FindTable(db: DB, name: Text): (r: Option<nat>)
    ensures r.Some? ==> r.value < |db| && db[r.value].schema.name == name
    ensures r.Some? ==> forall k :: 0 <= k < r.value ==> db[k].schema.name != name
    ensures r.None? ==> forall k :: 0 <= k < |db| ==> db[k].schema.name != name
  {
    if db == [] then None
    else if db[0].schema.name == name then Some(0)
    else
      match FindTable(db[1..], name)
      case None => None
      case Some(i) => Some(i + 1)
  }

  /** A missing cell is NULL. */
  function CellAt(row: Row, i: nat): Cell {
    if i < |row| then row[i] else None
  }

  /** A live row other than `exclude` has `v` in column `col`. */
  predicate HasValue(rows: Rows, col: nat, v: Value, exclude: Option<RowId>) {
    exists k :: 0 <= k < |rows| && Some(rows[k].0) != exclude && CellAt(rows[k].1, col) == Some(v)
  }

  function FindRow(rows: Rows, id: RowId): (r: Option<nat>)
    ensures r.Some? ==> r.value < |rows| && rows[r.value].0 == id
    ensures r.None? ==> forall k :: 0 <= k < |rows| ==> rows[k].0 != id
  {
    if rows == [] then None
    else if rows[0].0 == id then Some(0)
    else
      match FindRow(rows[1..], id)
      case None => None
      case Some(k) => Some(k + 1)
  }

  // ---- the integrity of a database ---------------------------------------------------------

  predicate CellOk(c: Column, cell: Cell) {
    Storable(cell) && if cell.None? then c.nullable else cell.value.TypeOf() == c.ty
  }

  /** Of schema length, well typed, and not NULL where that is required. */
  predicate RowOk(cols: seq<Column>, row: Row) {
    |row| == |cols| && forall i :: 0 <= i < |cols| ==> CellOk(cols[i], row[i])
  }

  /** Column `ci` has no value twice. */
  predicate NoDuplicates(rows: Rows, ci: nat) {
    forall j, k :: 0 <= j < k < |rows| && CellAt(rows[j].1, ci).Some? ==> CellAt(rows[j].1, ci) != CellAt(rows[k].1, ci)
  }

  predicate DistinctColumns(cols: seq<Column>) {
    forall i, j :: 0 <= i < j < |cols| ==> cols[i].name != cols[j].name
  }

  predicate DistinctIds(rows: Rows) {
    forall j, k :: 0 <= j < k < |rows| ==> rows[j].0 != rows[k].0
  }

  predicate Distinct<T(==)>(xs: seq<T>) {
    forall j, k :: 0 <= j < k < |xs| ==> xs[j] != xs[k]
  }

  predicate DistinctFks(fks: seq<ForeignKey>) {
    forall j, k :: 0 <= j < k < |fks| ==> fks[j].name != fks[k].name
  }

  predicate RefColsOk(t: Table) {
    Distinct(t.refCols) && forall n :: n in t.refCols ==> ColumnIndex(t.columns, n).Some?
  }

  /** What one table must satisfy by itself. */
  predicate TableOk(t: TableState) {
    && DistinctColumns(t.schema.columns) && DistinctFks(t.schema.fks) && RefColsOk(t.schema) && DistinctIds(t.rows)
    && (forall k :: 0 <= k < |t.rows| ==> RowOk(t.schema.columns, t.rows[k].1))
    && (forall ci :: 0 <= ci < |t.schema.columns| && t.schema.columns[ci].unique ==> NoDuplicates(t.rows, ci))
  }

  /** Every value of column `fi` in `src` stands in column `ti` of `dst`. */
  predicate Matched(src: Rows, fi: nat, dst: Rows, ti: nat) {
    forall k :: 0 <= k < |src| && CellAt(src[k].1, fi).Some? ==> HasValue(dst, ti, CellAt(src[k].1, fi).value, None)
  }

  /** A foreign key from `src` into `dst` joins existing columns of one type, the target UNIQUE, and every reference
      is matched. */
  predicate FkHolds(src: TableState, dst: TableState, f: ForeignKey) {
    var fi, ti := ColumnIndex(src.schema.columns, f.fromCol), ColumnIndex(dst.schema.columns, f.toCol);
    && fi.Some? && ti.Some?
    && dst.schema.columns[ti.value].unique && dst.schema.columns[ti.value].ty == src.schema.columns[fi.value].ty
    && Matched(src.rows, fi.value, dst.rows, ti.value)
  }

  predicate FkOk(db: DB, src: TableState, f: ForeignKey) {
    FindTable(db, f.toTable).Some? && FkHolds(src, db[FindTable(db, f.toTable).value], f)
  }

  predicate FksOk(db: DB, src: TableState) {
    forall k :: 0 <= k < |src.schema.fks| ==> FkOk(db, src, src.schema.fks[k])
  }

  predicate DistinctTables(db: DB) {
    forall i, j :: 0 <= i < j < |db| ==> db[i].schema.name != db[j].schema.name
  }

  /** Relational integrity. */
  predicate Integrity(db: DB) {
    && DistinctTables(db)
    && (forall i :: 0 <= i < |db| ==> TableOk(db[i]))
    && forall i :: 0 <= i < |db| ==> FksOk(db, db[i])
  }

  // ---- validation of a row -----------------------------------------------------------------

  /** Types and NOT NULL, column by column from `k`. */
  function CheckCells(cols: seq<Column>, cells: Row, k: nat): Result<()>
    requires |cells| == |cols| && k <= |cols|
    decreases |cols| - k
  {
    if k == |cols| then Success(())
    else if cells[k].None? && !cols[k].nullable then Failure(NullViolation(cols[k].name))
    else if cells[k].Some? && cells[k].value.TypeOf() != cols[k].ty then Failure(Parse("column type"))
    else CheckCells(cols, cells, k + 1)
  }

  /** UNIQUE among non-NULL values, column by column from `k`. */
  function CheckUnique(cols: seq<Column>, rows: Rows, cells: Row, exclude: Option<RowId>, k: nat): Result<()>
    requires |cells| == |cols| && k <= |cols|
    decreases |cols| - k
  {
    if k == |cols| then Success(())
    else if cols[k].unique && cells[k].Some? && HasValue(rows, k, cells[k].value, exclude) then
      Failure(UniqueViolation(cols[k].name))
    else CheckUnique(cols, rows, cells, exclude, k + 1)
  }

  /** The value is in the target column, where the pending `cells` stand in for the row being updated. */
  predicate HasTarget(rows: Rows, tcol: nat, v: Value, pending: Option<RowId>, cells: Row) {
    exists k :: 0 <= k < |rows| &&
      CellAt(if Some(rows[k].0) == pending then cells else rows[k].1, tcol) == Some(v)
  }

  /** Foreign keys, one by one from `k`. */
  function CheckFks(db: DB, ti: nat, cells: Row, exclude: Option<RowId>, k: nat): Result<()>
    requires ti < |db| && |cells| == |db[ti].schema.columns| && k <= |db[ti].schema.fks|
    decreases |db[ti].schema.fks| - k
  {
    var t := db[ti].schema;
    if k == |t.fks| then Success(())
    else
      var fk := t.fks[k];
      var fi := ColumnIndex(t.columns, fk.fromCol);
      if fi.None? then Failure(Corrupt("fk source column"))
      else if cells[fi.value].None? then CheckFks(db, ti, cells, exclude, k + 1)
      else
        var tj := FindTable(db, fk.toTable);
        if tj.None? then Failure(NotFound("table"))
        else
          var tcol := ColumnIndex(db[tj.value].schema.columns, fk.toCol);
          if tcol.None? then Failure(Corrupt("fk target column"))
          else if HasTarget(db[tj.value].rows, tcol.value, cells[fi.value].value,
                            if tj.value == ti then exclude else None, cells)
          then CheckFks(db, ti, cells, exclude, k + 1)
          else Failure(ForeignKeyViolation(fk.name))
  }

  function Validate(db: DB, ti: nat, cells: Row, exclude: Option<RowId>): Result<()>
    requires ti < |db|
  {
    var cols := db[ti].schema.columns;
    if |cells| != |cols| then Failure(Parse("cell count"))
    else if CheckCells(cols, cells, 0).Failure? then CheckCells(cols, cells, 0)
    else if CheckUnique(cols, db[ti].rows, cells, exclude, 0).Failure?
      then CheckUnique(cols, db[ti].rows, cells, exclude, 0)
    else CheckFks(db, ti, cells, exclude, 0)
  }

  // ---- rows ----------------------------------------------------------------------------------

  function WithRows(db: DB, i: nat, rows: Rows): DB
    requires i < |db|
  {
    db[i := db[i].(rows := rows)]
  }

  /** No live row of the table has the handle. */
  predicate FreshId(db: DB, table: Text, id: RowId) {
    FindTable(db, table).Some? ==> FindRow(db[FindTable(db, table).value].rows, id).None?
  }

  /** `id` is the handle the page layer gave the new row. */
  function Insert(db: DB, table: Text, cells: Row, id: RowId): Result<DB> {
    var i := FindTable(db, table);
    if i.None? then Failure(NotFound("table"))
    else
      var ok := Validate(db, i.value, cells, None);
      if ok.Failure? then Failure(ok.error) else Success(WithRows(db, i.value, db[i.value].rows + [(id, cells)]))
  }

  /** A row of `rows`, other than `skip`, refers to `key` in column `fci`. */
  predicate Refers(rows: Rows, fci: nat, key: Value, skip: Option<RowId>) {
    HasValue(rows, fci, key, skip)
  }

  /** The first foreign key of table `j`, from `k`, under which another row still needs `row`'s value: the name of it.
      `cells` is what the row becomes, or `None` when it goes away. The column look-ups cannot fail. */
  function RestrictFks(db: DB, i: nat, id: RowId, row: Row, cells: Option<Row>, j: nat, k: nat): Option<Text>
    requires Integrity(db) && i < |db| && j < |db| && k <= |db[j].schema.fks|
    decreases |db[j].schema.fks| - k
  {
    if k == |db[j].schema.fks| then None
    else
      var fk := db[j].schema.fks[k];
      if fk.toTable != db[i].schema.name then RestrictFks(db, i, id, row, cells, j, k + 1)
      else
        TargetFound(db, i, j, k);
        var tci := ColumnIndex(db[i].schema.columns, fk.toCol).value;
        var fci := ColumnIndex(db[j].schema.columns, fk.fromCol).value;
        var key := CellAt(row, tci);
        if key.None? || (cells.Some? && CellAt(cells.value, tci) == key)
          then RestrictFks(db, i, id, row, cells, j, k + 1)
        else if Refers(db[j].rows, fci, key.value, if j == i then Some(id) else None) then Some(fk.name)
        else RestrictFks(db, i, id, row, cells, j, k + 1)
  }

  function Restrict(db: DB, i: nat, id: RowId, row: Row, cells: Option<Row>, j: nat): Option<Text>
    requires Integrity(db) && i < |db| && j <= |db|
    decreases |db| - j
  {
    if j == |db| then None
    else if RestrictFks(db, i, id, row, cells, j, 0).Some? then RestrictFks(db, i, id, row, cells, j, 0)
    else Restrict(db, i, id, row, cells, j + 1)
  }

  /** With integrity, a foreign key that names table `i` finds its columns there and at home. */
  lemma TargetFound(db: DB, i: nat, j: nat, k: nat)
    requires Integrity(db) && i < |db| && j < |db| && k < |db[j].schema.fks|
    requires db[j].schema.fks[k].toTable == db[i].schema.name
    ensures FindTable(db, db[j].schema.fks[k].toTable) == Some(i)
    ensures FkHolds(db[j], db[i], db[j].schema.fks[k])
  {
    FindDistinct(db, i);
    assert FksOk(db, db[j]);
    assert FkOk(db, db[j], db[j].schema.fks[k]);
  }

  lemma FindDistinct(db: DB, i: nat)
    requires DistinctTables(db) && i < |db|
    ensures FindTable(db, db[i].schema.name) == Some(i)
  {
  }

  function Update(db: DB, table: Text, id: RowId, cells: Row): Result<DB>
    requires Integrity(db)
  {
    var i := FindTable(db, table);
    if i.None? then Failure(NotFound("table"))
    else
      var ok := Validate(db, i.value, cells, Some(id));
      var k := FindRow(db[i.value].rows, id);
      if ok.Failure? then Failure(ok.error)
      else if k.None? then Failure(NotFound("row"))
      else
        var rows := db[i.value].rows;
        var blocked := Restrict(db, i.value, id, rows[k.value].1, Some(cells), 0);
        if blocked.Some? then Failure(ForeignKeyViolation(blocked.value))
        else Success(WithRows(db, i.value, rows[k.value := (id, cells)]))
  }

  function Delete(db: DB, table: Text, id: RowId): Result<DB>
    requires Integrity(db)
  {
    var i := FindTable(db, table);
    if i.None? then Failure(NotFound("table"))
    else
      var k := FindRow(db[i.value].rows, id);
      if k.None? then Failure(NotFound("row"))
      else
        var rows := db[i.value].rows;
        var blocked := Restrict(db, i.value, id, rows[k.value].1, None, 0);
        if blocked.Some? then Failure(ForeignKeyViolation(blocked.value))
        else Success(WithRows(db, i.value, rows[..k.value] + rows[k.value + 1..]))
  }

  // ---- schema ----------------------------------------------------------------------------------

  function CreateTable(db: DB, name: Text): Result<DB> {
    if name == [] then Failure(SchemaRejected("table name is empty"))
    else if FindTable(db, name).Some? then Failure(Duplicate("table"))
    else Success(db + [TableState(Table(name, [], [], []), [])])
  }

  /** Some foreign key of `fks` points into `table`. */
  predicate PointsInto(fks: seq<ForeignKey>, table: Text) {
    exists k :: 0 <= k < |fks| && fks[k].toTable == table
  }

  predicate PointsAt(fks: seq<ForeignKey>, table: Text, col: Text) {
    exists k :: 0 <= k < |fks| && fks[k].toTable == table && fks[k].toCol == col
  }

  predicate LeavesFrom(fks: seq<ForeignKey>, col: Text) {
    exists k :: 0 <= k < |fks| && fks[k].fromCol == col
  }

  /** Some table points a foreign key at `table.col`. */
  predicate Targeted(db: DB, table: Text, col: Text) {
    exists j :: 0 <= j < |db| && PointsAt(db[j].schema.fks, table, col)
  }

  function Without<T>(xs: seq<T>, i: nat): (r: seq<T>)
    requires i < |xs|
    ensures |r| == |xs| - 1
  {
    xs[..i] + xs[i + 1..]
  }

  function DropTable(db: DB, name: Text): Result<DB> {
    var i := FindTable(db, name);
    if i.None? then Failure(NotFound("table"))
    else if exists j :: 0 <= j < |db| && j != i.value && PointsInto(db[j].schema.fks, name) then
      Failure(SchemaRejected("table is referenced by a foreign key"))
    else Success(Without(db, i.value))
  }

  /** Every row transformed. */
  function MapRows(rows: Rows, f: Row -> Row): (r: Rows)
    ensures |r| == |rows|
    ensures forall k :: 0 <= k < |rows| ==> r[k] == (rows[k].0, f(rows[k].1))
  {
    seq(|rows|, k requires 0 <= k < |rows| => (rows[k].0, f(rows[k].1)))
  }

  function AppendNull(row: Row): Row {
    row + [None]
  }

  /** The table with a further column, NULL in every row. */
  function WithNewColumn(t: TableState, col: Column): TableState {
    TableState(t.schema.(columns := t.schema.columns + [col]), MapRows(t.rows, AppendNull))
  }

  function AddColumn(db: DB, table: Text, col: Column): Result<DB> {
    var i := FindTable(db, table);
    if i.None? then Failure(NotFound("table"))
    else
      var t := db[i.value];
      if !col.nullable && |t.rows| > 0 then Failure(SchemaRejected("table has rows; a new column must be nullable"))
      else if ColumnIndex(t.schema.columns, col.name).Some? then Failure(Duplicate("column"))
      else Success(db[i.value := WithNewColumn(t, col)])
  }

  /** The cell at `idx` taken out, if there is one. */
  function CutCell(row: Row, idx: nat): Row {
    if idx < |row| then Without(row, idx) else row
  }

  /** The table without one column. */
  function WithoutColumn(t: TableState, idx: nat, col: Text): TableState
    requires idx < |t.schema.columns|
  {
    TableState(t.schema.(columns := Without(t.schema.columns, idx), refCols := Remove(t.schema.refCols, col)),
      MapRows(t.rows, (row: Row) => CutCell(row, idx)))
  }

  function DropColumn(db: DB, table: Text, col: Text): Result<DB> {
    var i := FindTable(db, table);
    if i.None? then Failure(NotFound("table"))
    else
      var t := db[i.value];
      var idx := ColumnIndex(t.schema.columns, col);
      if idx.None? then Failure(NotFound("column"))
      else if LeavesFrom(t.schema.fks, col) then Failure(SchemaRejected("column carries a foreign key"))
      else if Targeted(db, table, col) then Failure(SchemaRejected("column is targeted by a foreign key"))
      else Success(db[i.value := WithoutColumn(t, idx.value, col)])
  }

  /** All occurrences taken out. */
  function Remove(names: seq<Text>, n: Text): (r: seq<Text>)
    ensures forall x :: x in r <==> x in names && x != n
  {
    if names == [] then []
    else if names[0] == n then Remove(names[1..], n)
    else [names[0]] + Remove(names[1..], n)
  }

  /** The element at `from` moved to `to`. */
  function Moved<T>(xs: seq<T>, from: nat, to: nat): (r: seq<T>)
    requires from < |xs| && to < |xs|
    ensures |r| == |xs|
  {
    var rest := Without(xs, from);
    rest[..to] + [xs[from]] + rest[to..]
  }

  /** Cut or padded with NULL to `n` cells. */
  function Fitted(row: Row, n: nat): (r: Row)
    ensures |r| == n
  {
    if n <= |row| then row[..n] else row + seq(n - |row|, _ => None)
  }

  /** The table with one column, and its cells, in another place. */
  function WithMovedColumn(t: TableState, from: nat, to: nat): TableState
    requires from < |t.schema.columns| && to < |t.schema.columns|
  {
    TableState(t.schema.(columns := Moved(t.schema.columns, from, to)),
      MapRows(t.rows, (row: Row) => Moved(Fitted(row, |t.schema.columns|), from, to)))
  }

  function MoveColumn(db: DB, table: Text, col: Text, newIndex: nat): Result<DB> {
    var i := FindTable(db, table);
    if i.None? then Failure(NotFound("table"))
    else
      var t := db[i.value];
      var n := |t.schema.columns|;
      var idx := ColumnIndex(t.schema.columns, col);
      if idx.None? then Failure(NotFound("column"))
      else if newIndex >= n then Failure(SchemaRejected("new column index out of range"))
      else if newIndex == idx.value then Success(db)
      else Success(db[i.value := WithMovedColumn(t, idx.value, newIndex)])
  }

  function RenameText(n: Text, old_: Text, new_: Text): Text {
    if n == old_ then new_ else n
  }

  /** What a rename of `table.old_` does to the schema of any table. */
  function Renamed(t: Table, table: Text, old_: Text, new_: Text): (r: Table)
    ensures |r.columns| == |t.columns| && |r.fks| == |t.fks| && |r.refCols| == |t.refCols| && r.name == t.name
  {
    var owns := t.name == table;
    Table(t.name,
      seq(|t.columns|, k requires 0 <= k < |t.columns| =>
        if owns then t.columns[k].(name := RenameText(t.columns[k].name, old_, new_)) else t.columns[k]),
      seq(|t.fks|, k requires 0 <= k < |t.fks| => RenamedFk(t.fks[k], owns, table, old_, new_)),
      seq(|t.refCols|, k requires 0 <= k < |t.refCols| =>
        if owns then RenameText(t.refCols[k], old_, new_) else t.refCols[k]))
  }

  function RenamedFk(f: ForeignKey, owns: bool, table: Text, old_: Text, new_: Text): ForeignKey {
    f.(fromCol := if owns then RenameText(f.fromCol, old_, new_) else f.fromCol,
       toCol := if f.toTable == table then RenameText(f.toCol, old_, new_) else f.toCol)
  }

  function RenameAll(db: DB, table: Text, old_: Text, new_: Text): (r: DB)
    ensures |r| == |db|
  {
    seq(|db|, i requires 0 <= i < |db| => db[i].(schema := Renamed(db[i].schema, table, old_, new_)))
  }

  function RenameColumn(db: DB, table: Text, old_: Text, new_: Text): Result<DB> {
    if new_ == [] then Failure(SchemaRejected("column name is empty"))
    else if old_ == new_ then Success(db)
    else
      var i := FindTable(db, table);
      if i.None? then Failure(NotFound("table"))
      else if ColumnIndex(db[i.value].schema.columns, old_).None? then Failure(NotFound("column"))
      else if ColumnIndex(db[i.value].schema.columns, new_).Some? then Failure(Duplicate("column"))
      else Success(RenameAll(db, table, old_, new_))
  }

  /** A table after one column's flags changed. */
  function WithFlags(t: TableState, ci: nat, c: Column): TableState
    requires ci < |t.schema.columns|
  {
    t.(schema := t.schema.(columns := t.schema.columns[ci := c]))
  }

  function SetUnique(db: DB, table: Text, col: Text, unique: bool): Result<DB> {
    var i := FindTable(db, table);
    if i.None? then Failure(NotFound("table"))
    else
      var t := db[i.value];
      var ci := ColumnIndex(t.schema.columns, col);
      if ci.None? then Failure(NotFound("column"))
      else if !unique && Targeted(db, table, col) then Failure(SchemaRejected("column is a foreign-key target"))
      else if unique && !NoDuplicates(t.rows, ci.value) then Failure(SchemaRejected("column contains duplicate values"))
      else Success(db[i.value := WithFlags(t, ci.value, t.schema.columns[ci.value].(unique := unique))])
  }

  predicate FkNameTaken(fks: seq<ForeignKey>, name: Text) {
    exists k :: 0 <= k < |fks| && fks[k].name == name
  }

  /** `col_fk`, or with the counter behind it. */
  function FkCandidate(col: Text, n: nat): Text {
    col + [95, 102, 107] + (if n < 2 then [] else UintText(BigUintOf(n)))
  }

  /** `col_fk`, then `col_fk2`, `col_fk3`, …: the first not taken, within `fuel` more attempts. */
  function FkName(fks: seq<ForeignKey>, col: Text, n: nat, fuel: nat): Text
    decreases fuel
  {
    var base := FkCandidate(col, n);
    if fuel == 0 || !FkNameTaken(fks, base) then base else FkName(fks, col, if n < 2 then 2 else n + 1, fuel - 1)
  }

  /** The decimal digits of a counter. */
  function BigUintOf(n: nat): BigUint {
    BigUint(if n == 0 then [] else BigUintOf(n / 10).digits + [n % 10])
  }

  function AddFk(db: DB, table: Text, fromCol: Text, toTable: Text, toCol: Text): Result<DB> {
    var i := FindTable(db, table);
    if i.None? then Failure(NotFound("table"))
    else
      var t := db[i.value];
      var fc := ColumnIndex(t.schema.columns, fromCol);
      if fc.None? then Failure(NotFound("column"))
      else
        var j := FindTable(db, toTable);
        if j.None? then Failure(NotFound("table"))
        else
          var tt := db[j.value];
          var tc := ColumnIndex(tt.schema.columns, toCol);
          if tc.None? then Failure(NotFound("column"))
          else if !tt.schema.columns[tc.value].unique then Failure(SchemaRejected("target must be UNIQUE"))
          else if t.schema.columns[fc.value].ty != tt.schema.columns[tc.value].ty then
            Failure(SchemaRejected("column and target must share a type"))
          else if !Matched(t.rows, fc.value, tt.rows, tc.value)
            then Failure(SchemaRejected("existing value has no match"))
          else
            var fk := ForeignKey(FkName(t.schema.fks, fromCol, 0, |t.schema.fks|), fromCol, toTable, toCol);
            Success(db[i.value := t.(schema := t.schema.(fks := t.schema.fks + [fk]))])
  }

  /** The keys not called `name`. */
  function DropNamed(fks: seq<ForeignKey>, name: Text): seq<ForeignKey> {
    if fks == [] then []
    else if fks[0].name == name then DropNamed(fks[1..], name)
    else [fks[0]] + DropNamed(fks[1..], name)
  }

  function DropFk(db: DB, table: Text, fkName: Text): Result<DB> {
    var i := FindTable(db, table);
    if i.None? then Failure(NotFound("table"))
    else
      var t := db[i.value];
      var left := DropNamed(t.schema.fks, fkName);
      if |left| == |t.schema.fks| then Failure(NotFound("foreign key"))
      else Success(db[i.value := t.(schema := t.schema.(fks := left))])
  }

  /** Names must exist and differ; the first that does not decides. */
  function CheckRefs(cols: seq<Column>, names: seq<Text>, k: nat): Result<()>
    requires k <= |names|
    decreases |names| - k
  {
    if k == |names| then Success(())
    else if ColumnIndex(cols, names[k]).None? then Failure(NotFound("column"))
    else if names[k] in names[..k] then Failure(Duplicate("reference column"))
    else CheckRefs(cols, names, k + 1)
  }

  function SetReferenceColumns(db: DB, table: Text, names: seq<Text>): Result<DB> {
    var i := FindTable(db, table);
    if i.None? then Failure(NotFound("table"))
    else
      var t := db[i.value];
      var ok := CheckRefs(t.schema.columns, names, 0);
      if ok.Failure? then Failure(ok.error)
      else Success(db[i.value := t.(schema := t.schema.(refCols := names))])
  }

  function SetDisplayWidth(db: DB, table: Text, col: Text, width: Option<u16>): Result<DB> {
    var i := FindTable(db, table);
    if i.None? then Failure(NotFound("table"))
    else
      var t := db[i.value];
      var ci := ColumnIndex(t.schema.columns, col);
      if ci.None? then Failure(NotFound("column"))
      else Success(db[i.value := WithFlags(t, ci.value, t.schema.columns[ci.value].(displayWidth := width))])
  }
}
