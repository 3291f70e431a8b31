/** Whole runs of the engine: whatever sequence of operations is tried, the database keeps its integrity. */
module Engine {
  import opened Errors
  import opened Bytes
  import opened Bignum
  import opened Codec
  import opened Schema
  import opened Chains
  import opened Relational
  import opened RowIntegrity
  import opened SchemaEdits

  datatype Op =
    | OpCreateTable(name: Text)
    | OpDropTable(name: Text)
    | OpAddColumn(table: Text, column: Column)
    | OpDropColumn(table: Text, col: Text)
    | OpMoveColumn(table: Text, col: Text, newIndex: nat)
    | OpRenameColumn(table: Text, oldName: Text, newName: Text)
    | OpSetUnique(table: Text, col: Text, unique: bool)
    | OpSetDisplayWidth(table: Text, col: Text, width: Option<u16>)
    | OpAddFk(table: Text, fromCol: Text, toTable: Text, toCol: Text)
    | OpDropFk(table: Text, fkName: Text)
    | OpSetReferenceColumns(table: Text, names: seq<Text>)
    | OpInsert(table: Text, cells: Row, id: RowId)
    | OpUpdate(table: Text, id: RowId, cells: Row)
    | OpDelete(table: Text, id: RowId)

  function Outcome(db: DB, op: Op): Result<DB>
    requires Integrity(db)
  {
    match op
    case OpCreateTable(name) => CreateTable(db, name)
    case OpDropTable(name) => DropTable(db, name)
    case OpAddColumn(table, column) => AddColumn(db, table, column)
    case OpDropColumn(table, col) => DropColumn(db, table, col)
    case OpMoveColumn(table, col, newIndex) => MoveColumn(db, table, col, newIndex)
    case OpRenameColumn(table, oldName, newName) => RenameColumn(db, table, oldName, newName)
    case OpSetUnique(table, col, unique) => SetUnique(db, table, col, unique)
    case OpSetDisplayWidth(table, col, width) => SetDisplayWidth(db, table, col, width)
    case OpAddFk(table, fromCol, toTable, toCol) => AddFk(db, table, fromCol, toTable, toCol)
    case OpDropFk(table, fkName) => DropFk(db, table, fkName)
    case OpSetReferenceColumns(table, names) => SetReferenceColumns(db, table, names)
    case OpInsert(table, cells, id) => Insert(db, table, cells, id)
    case OpUpdate(table, id, cells) => Update(db, table, id, cells)
    case OpDelete(table, id) => Delete(db, table, id)
  }

  /** What the caller and the page layer guarantee: cells are proper values, and a new row gets a handle no live row
      of its table has. */
  predicate Admissible(db: DB, op: Op) {
    match op
    case OpInsert(table, cells, id) =>
      && (forall c :: c in cells ==> Storable(c))
      && FreshId(db, table, id)
    case OpUpdate(_, _, cells) => forall c :: c in cells ==> Storable(c)
    case _ => true
  }

  /** An operation that ran to its end, or one that ran out of room or was cut short by power and a new mount. */
  datatype Event = Ran(op: Op) | Stopped(op: Op)

  /** One event: the operation takes effect, or is refused and changes nothing; one that was stopped has happened or
      not. The engine only defines what happens to a database of integrity; from any other, anything may. */
  ghost predicate Step(db: DB, e: Event, db': DB) {
    Integrity(db) && Admissible(db, e.op) ==>
      var want := Outcome(db, e.op);
      || (want.Success? && db' == want.value)
      || (db' == db && (want.Failure? || e.Stopped?))
  }

  /** A run from the empty store. */
  ghost predicate Run(dbs: seq<DB>, events: seq<Event>) {
    && |dbs| == |events| + 1 && dbs[0] == []
    && forall k :: 0 <= k < |events| ==> Admissible(dbs[k], events[k].op) && Step(dbs[k], events[k], dbs[k + 1])
  }

  lemma OutcomeKeeps(db: DB, op: Op)
    requires Integrity(db) && Admissible(db, op) && Outcome(db, op).Success?
    ensures Integrity(Outcome(db, op).value)
  {
    hide Integrity, CreateTable, DropTable, AddColumn, DropColumn, MoveColumn, RenameColumn, SetUnique, SetDisplayWidth,
      AddFk, DropFk, SetReferenceColumns, Validate, Update, Delete, Storable, FindTable, FindRow;
    match op
    case OpCreateTable(name) => CreateTableKeeps(db, name);
    case OpDropTable(name) => DropTableKeeps(db, name);
    case OpAddColumn(table, column) => AddColumnKeeps(db, table, column);
    case OpDropColumn(table, col) => DropColumnKeeps(db, table, col);
    case OpMoveColumn(table, col, newIndex) => MoveColumnKeeps(db, table, col, newIndex);
    case OpRenameColumn(table, oldName, newName) => RenameColumnKeeps(db, table, oldName, newName);
    case OpSetUnique(table, col, unique) => SetUniqueKeeps(db, table, col, unique);
    case OpSetDisplayWidth(table, col, width) => SetDisplayWidthKeeps(db, table, col, width);
    case OpAddFk(table, fromCol, toTable, toCol) => AddFkKeeps(db, table, fromCol, toTable, toCol);
    case OpDropFk(table, fkName) => DropFkKeeps(db, table, fkName);
    case OpSetReferenceColumns(table, names) => SetReferenceColumnsKeeps(db, table, names);
    case OpInsert(table, cells, id) => InsertKeeps(db, table, cells, id);
    case OpUpdate(table, id, cells) => UpdateKeeps(db, table, id, cells);
    case OpDelete(table, id) => DeleteKeeps(db, table, id);
  }

  /** Relational integrity holds in every state of every run. */
  lemma {:induction false} ReachableIntact(dbs: seq<DB>, events: seq<Event>, k: nat)
    requires Run(dbs, events) && k < |dbs|
    ensures Integrity(dbs[k])
  {
    hide Outcome, TableOk, FksOk, Admissible;
    if k > 0 {
      ReachableIntact(dbs, events, k - 1);
      assert Step(dbs[k - 1], events[k - 1], dbs[k]);
      if Outcome(dbs[k - 1], events[k - 1].op).Success? {
        OutcomeKeeps(dbs[k - 1], events[k - 1].op);
      }
    }
  }

  /** In every state of every run, following a foreign key from a live row finds exactly one row. */
  lemma ReachableFollows(dbs: seq<DB>, events: seq<Event>, s: nat, i: nat, k: nat, m: nat)
    requires Run(dbs, events) && s < |dbs| && i < |dbs[s]| && k < |dbs[s][i].rows| && m < |dbs[s][i].schema.fks|
    ensures var db, f := dbs[s], dbs[s][i].schema.fks[m];
      var fi, j := ColumnIndex(db[i].schema.columns, f.fromCol), FindTable(db, f.toTable);
      && fi.Some? && j.Some? && ColumnIndex(db[j.value].schema.columns, f.toCol).Some?
      && var ti := ColumnIndex(db[j.value].schema.columns, f.toCol).value;
        var cell, dst := CellAt(db[i].rows[k].1, fi.value), db[j.value].rows;
        cell.Some? ==>
          exists p :: 0 <= p < |dst| && CellAt(dst[p].1, ti) == cell
            && forall q :: 0 <= q < |dst| && CellAt(dst[q].1, ti) == cell ==> q == p
  {
    hide Run, Integrity, ColumnIndex, CellAt;
    ReachableIntact(dbs, events, s);
    FollowFindsOne(dbs[s], i, k, m);
  }
}
