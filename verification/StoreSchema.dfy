/** The schema operations of the store. */
module StoreSchema {
  import opened Errors
  import opened Bytes
  import opened Bignum
  import opened Value
  import opened Codec
  import opened Schema
  import opened Block
  import opened Pager
  import opened ChainModel
  import opened ChainStore
  import opened Relational
  import opened SchemaEdits
  import opened StoreModel
  import opened Store
  import opened StoreFits

  // ---- what each operation does to a schema and to its rows ------------------------------------

  function Extended(t: Table, col: Column): Result<Table> {
    if ColumnIndex(t.columns, col.name).Some? then Failure(Duplicate("column"))
    else Success(t.(columns := t.columns + [col]))
  }

  function Extend(col: Column): Table -> Result<Table> {
    (t: Table) => Extended(t, col)
  }

  function Cut(idx: nat, col: Text): Table -> Result<Table> {
    (t: Table) =>
      if idx < |t.columns| then Success(t.(columns := Without(t.columns, idx), refCols := Remove(t.refCols, col)))
      else Success(t)
  }

  function CutRow(idx: nat): Row -> Row {
    (row: Row) => CutCell(row, idx)
  }

  function Move(from: nat, to: nat): Table -> Result<Table> {
    (t: Table) =>
      if from < |t.columns| && to < |t.columns| then Success(t.(columns := Moved(t.columns, from, to))) else Success(t)
  }

  function MoveRow(n: nat, from: nat, to: nat): Row -> Row {
    (row: Row) => if from < n && to < n then Moved(Fitted(row, n), from, to) else row
  }

  function Flagged(ci: nat, unique: bool): Table -> Result<Table> {
    (t: Table) =>
      if ci < |t.columns| then Success(t.(columns := t.columns[ci := t.columns[ci].(unique := unique)])) else Success(t)
  }

  function WithFk(fk: ForeignKey): Table -> Result<Table> {
    (t: Table) => Success(t.(fks := t.fks + [fk]))
  }

  function Unlinked(name: Text): Table -> Result<Table> {
    (t: Table) =>
      if |DropNamed(t.fks, name)| == |t.fks| then Failure(NotFound("foreign key"))
      else Success(t.(fks := DropNamed(t.fks, name)))
  }

  function Labelled(names: seq<Text>): Table -> Result<Table> {
    (t: Table) =>
      var ok := CheckRefs(t.columns, names, 0);
      if ok.Failure? then Failure(ok.error) else Success(t.(refCols := names))
  }

  function Widened(col: Text, width: Option<u16>): Table -> Result<Table> {
    (t: Table) =>
      var ci := ColumnIndex(t.columns, col);
      if ci.None? then Failure(NotFound("column"))
      else Success(t.(columns := t.columns[ci.value := t.columns[ci.value].(displayWidth := width)]))
  }

  lemma SameRows(rows: Rows, f: Row -> Row, g: Row -> Row)
    requires forall k :: 0 <= k < |rows| ==> f(rows[k].1) == g(rows[k].1)
    ensures MapRows(rows, f) == MapRows(rows, g)
  {
  }

  // ---- columns ---------------------------------------------------------------------------------

  lemma AddColumnIsPut(db: DB, table: Text, col: Column)
    requires FindTable(db, table).Some? ==> col.nullable || |db[FindTable(db, table).value].rows| == 0
    ensures AddColumn(db, table, col) == Put(db, table, Extend(col), Some(AppendNull))
    ensures KeepsName(Extend(col))
  {
    hide FindTable, ColumnIndex;
  }

  /** `add_column`. */
  method AddNewColumn(s: Store, table: Text, col: Column) returns (r: Result<()>)
    requires s.Valid() && EncodableDB(AddColumn(s.db, table, col)) &&
      s.heap.pager.sb.generation + 1 < 0x1_0000_0000_0000_0000
    modifies s, s.heap, s.heap.pager, s.heap.pager.dev
    ensures s.Tried(Failed(r), AddColumn(old(s.db), table, col), old(s.Now()))
  {
    hide Body, ChainHeap.Valid, Integrity, FindTable, Put, EncodableDB, AllFit, KeepsName, Store.Anchored, VolumeHolds,
      MapRows, ColumnIndex;
    if !col.nullable {
      var place := s.Locate(table);
      if place.Failure? { return Failure(place.error); }
      if place.value.0[place.value.1].rowCount > 0 {
        return Failure(SchemaRejected("table has rows; a new column must be nullable"));
      }
    }
    AddColumnIsPut(s.db, table, col);
    s.KeptIntegrity();
    if AddColumn(s.db, table, col).Success? {
      AddColumnKeeps(s.db, table, col);
    }
    r := s.PutSchema(table, Extend(col), Some(AppendNull));
  }

  /** Some table points a foreign key at `table.col`. */
  method PointedAt(s: Store, cat: seq<CatEntry>, table: Text, col: Text) returns (found: bool)
    requires s.Valid() && cat == s.cat && s.On(s.cat, s.db, s.tag) && |s.cat| == |s.db|
    modifies s.heap.pager`cache
    ensures s.Valid() && s.Now() == old(s.Now()) && found == Targeted(s.db, table, col)
  {
    hide Body, ChainHeap.InHand, Store.Anchored, PointsAt;
    for j := 0 to |cat|
      invariant s.Valid() && s.Now() == old(s.Now()) && s.On(s.cat, s.db, s.tag)
      invariant forall m :: 0 <= m < j ==> !PointsAt(s.db[m].schema.fks, table, col)
    {
      var ot := s.SchemaOf(cat[j], s.cat, s.db, s.tag, j);
      if PointsAt(ot.value.fks, table, col) { return true; }
    }
    return false;
  }

  lemma DropColumnIsPut(db: DB, table: Text, col: Text)
    requires FindTable(db, table).Some?
    requires var t := db[FindTable(db, table).value].schema;
      ColumnIndex(t.columns, col).Some? && !LeavesFrom(t.fks, col) && !Targeted(db, table, col)
    ensures var idx := ColumnIndex(db[FindTable(db, table).value].schema.columns, col).value;
      DropColumn(db, table, col) == Put(db, table, Cut(idx, col), Some(CutRow(idx))) && KeepsName(Cut(idx, col))
  {
    hide FindTable, ColumnIndex, MapRows, Remove, LeavesFrom, Targeted;
    var t := db[FindTable(db, table).value];
    var idx := ColumnIndex(t.schema.columns, col).value;
    SameRows(t.rows, CutRow(idx), (row: Row) => CutCell(row, idx));
  }

  /** `drop_column`. */
  method DropColumnNamed(s: Store, table: Text, col: Text) returns (r: Result<()>)
    requires s.Valid() && s.heap.pager.sb.generation + 1 < 0x1_0000_0000_0000_0000
    modifies s, s.heap, s.heap.pager, s.heap.pager.dev
    ensures s.Tried(Failed(r), DropColumn(old(s.db), table, col), old(s.Now()))
  {
    hide Body, ChainHeap.Valid, Integrity, FindTable, Put, EncodableDB, AllFit, KeepsName, Store.Anchored, VolumeHolds,
      MapRows, ColumnIndex, LeavesFrom, Targeted, Cut, CutRow, Remove, Without;
    var place := s.Locate(table);
    if place.Failure? { return Failure(place.error); }
    var t := place.value.2;
    var idx := ColumnIndex(t.columns, col);
    if idx.None? { return Failure(NotFound("column")); }
    if LeavesFrom(t.fks, col) { return Failure(SchemaRejected("column carries a foreign key")); }
    var pointed := PointedAt(s, place.value.0, table, col);
    if pointed { return Failure(SchemaRejected("column is targeted by a foreign key")); }
    DropColumnIsPut(s.db, table, col);
    StoredFits(s);
    DropColumnFits(s.db, table, col);
    s.KeptIntegrity();
    DropColumnKeeps(s.db, table, col);
    r := s.PutSchema(table, Cut(idx.value, col), Some(CutRow(idx.value)));
  }

  /** The column is where it is asked to go. */
  predicate StaysPut(db: DB, table: Text, col: Text, newIndex: nat) {
    FindTable(db, table).Some? && ColumnIndex(db[FindTable(db, table).value].schema.columns, col) == Some(newIndex)
  }

  lemma MoveColumnIsPut(db: DB, table: Text, col: Text, newIndex: nat)
    requires FindTable(db, table).Some? && !StaysPut(db, table, col, newIndex)
    requires var t := db[FindTable(db, table).value].schema;
      ColumnIndex(t.columns, col).Some? && newIndex < |t.columns|
    ensures var t := db[FindTable(db, table).value].schema;
      var idx := ColumnIndex(t.columns, col).value;
      MoveColumn(db, table, col, newIndex) ==
        Put(db, table, Move(idx, newIndex), Some(MoveRow(|t.columns|, idx, newIndex)))
        && KeepsName(Move(idx, newIndex))
  {
    hide FindTable, ColumnIndex, MapRows, Moved, Fitted;
    var t := db[FindTable(db, table).value];
    var idx, n := ColumnIndex(t.schema.columns, col).value, |t.schema.columns|;
    SameRows(t.rows, MoveRow(n, idx, newIndex), (row: Row) => Moved(Fitted(row, n), idx, newIndex));
  }

  /** `move_column`; asking for the place the column has does nothing. */
  method MoveColumnTo(s: Store, table: Text, col: Text, newIndex: nat) returns (r: Result<()>)
    requires s.Valid() && s.heap.pager.sb.generation + 1 < 0x1_0000_0000_0000_0000
    modifies s, s.heap, s.heap.pager, s.heap.pager.dev
    ensures if StaysPut(old(s.db), table, col, newIndex) then r.Success? && s.Valid() && s.Now() == old(s.Now())
      else s.Tried(Failed(r), MoveColumn(old(s.db), table, col, newIndex), old(s.Now()))
  {
    hide Body, ChainHeap.Valid, Integrity, FindTable, Put, EncodableDB, AllFit, KeepsName, Store.Anchored, VolumeHolds,
      MapRows, ColumnIndex, Move, MoveRow, Moved;
    var place := s.Locate(table);
    if place.Failure? { return Failure(place.error); }
    var t := place.value.2;
    var idx := ColumnIndex(t.columns, col);
    if idx.None? { return Failure(NotFound("column")); }
    if newIndex >= |t.columns| { return Failure(SchemaRejected("new column index out of range")); }
    if newIndex == idx.value { return Success(()); }
    MoveColumnIsPut(s.db, table, col, newIndex);
    StoredFits(s);
    MoveColumnFits(s.db, table, col, newIndex);
    s.KeptIntegrity();
    MoveColumnKeeps(s.db, table, col, newIndex);
    r := s.PutSchema(table, Move(idx.value, newIndex), Some(MoveRow(|t.columns|, idx.value, newIndex)));
  }

  /** Whether a column holds a value twice. */
  method Repeats(rows: Rows, ci: nat) returns (found: bool)
    ensures found <==> !NoDuplicates(rows, ci)
  {
    hide CellAt;
    var seen: seq<Value> := [];
    for k := 0 to |rows|
      invariant forall j :: 0 <= j < k && CellAt(rows[j].1, ci).Some? ==> CellAt(rows[j].1, ci).value in seen
      invariant forall v :: v in seen ==> exists j :: 0 <= j < k && CellAt(rows[j].1, ci) == Some(v)
      invariant NoDuplicates(rows[..k], ci)
    {
      var cell := CellAt(rows[k].1, ci);
      if cell.Some? {
        if cell.value in seen {
          var j :| 0 <= j < k && CellAt(rows[j].1, ci) == Some(cell.value);
          assert !NoDuplicates(rows, ci);
          return true;
        }
        assert CellAt(rows[k].1, ci) == Some(cell.value);
        seen := seen + [cell.value];
      }
    }
    assert rows[..|rows|] == rows;
    return false;
  }

  lemma SetUniqueIsPut(db: DB, table: Text, col: Text, unique: bool)
    requires FindTable(db, table).Some?
    requires var t := db[FindTable(db, table).value];
      && ColumnIndex(t.schema.columns, col).Some? && (!unique ==> !Targeted(db, table, col))
      && (unique ==> NoDuplicates(t.rows, ColumnIndex(t.schema.columns, col).value))
    ensures var ci := ColumnIndex(db[FindTable(db, table).value].schema.columns, col).value;
      SetUnique(db, table, col, unique) == Put(db, table, Flagged(ci, unique), None) && KeepsName(Flagged(ci, unique))
  {
    hide FindTable, ColumnIndex, Targeted, NoDuplicates;
  }

  /** `set_unique`. */
  method SetUniqueFlag(s: Store, table: Text, col: Text, unique: bool) returns (r: Result<()>)
    requires s.Valid() && s.heap.pager.sb.generation + 1 < 0x1_0000_0000_0000_0000
    modifies s, s.heap, s.heap.pager, s.heap.pager.dev
    ensures s.Tried(Failed(r), SetUnique(old(s.db), table, col, unique), old(s.Now()))
  {
    hide Body, ChainHeap.InHand, Integrity, FindTable, Put, EncodableDB, AllFit, KeepsName, Store.Anchored, VolumeHolds,
      ColumnIndex, Flagged, Targeted, NoDuplicates;
    var place := s.Locate(table);
    if place.Failure? { return Failure(place.error); }
    var i, t := place.value.1, place.value.2;
    var ci := ColumnIndex(t.columns, col);
    if ci.None? { return Failure(NotFound("column")); }
    if !unique {
      var pointed := PointedAt(s, place.value.0, table, col);
      if pointed { return Failure(SchemaRejected("column is a foreign-key target")); }
    } else {
      var rows := s.RowsOf(place.value.0[i], s.cat, s.db, s.tag, i);
      var repeats := Repeats(rows.value, ci.value);
      if repeats { return Failure(SchemaRejected("column contains duplicate values")); }
    }
    SetUniqueIsPut(s.db, table, col, unique);
    StoredFits(s);
    SetUniqueFits(s.db, table, col, unique);
    s.KeptIntegrity();
    SetUniqueKeeps(s.db, table, col, unique);
    r := s.PutSchema(table, Flagged(ci.value, unique), None);
  }

  lemma SetDisplayWidthIsPut(db: DB, table: Text, col: Text, width: Option<u16>)
    ensures SetDisplayWidth(db, table, col, width) == Put(db, table, Widened(col, width), None)
    ensures KeepsName(Widened(col, width))
  {
    hide FindTable, ColumnIndex;
  }

  /** `set_display_width`. */
  method SetWidth(s: Store, table: Text, col: Text, width: Option<u16>) returns (r: Result<()>)
    requires s.Valid() && s.heap.pager.sb.generation + 1 < 0x1_0000_0000_0000_0000
    modifies s, s.heap, s.heap.pager, s.heap.pager.dev
    ensures s.Tried(Failed(r), SetDisplayWidth(old(s.db), table, col, width), old(s.Now()))
  {
    hide Body, ChainHeap.Valid, Integrity, FindTable, Put, EncodableDB, AllFit, KeepsName, Store.Anchored, VolumeHolds,
      ColumnIndex, Widened, SetDisplayWidth;
    SetDisplayWidthIsPut(s.db, table, col, width);
    StoredFits(s);
    SetDisplayWidthFits(s.db, table, col, width);
    s.KeptIntegrity();
    if SetDisplayWidth(s.db, table, col, width).Success? {
      SetDisplayWidthKeeps(s.db, table, col, width);
    }
    r := s.PutSchema(table, Widened(col, width), None);
  }

  // ---- labels and keys ---------------------------------------------------------------------------

  lemma SetReferenceColumnsIsPut(db: DB, table: Text, names: seq<Text>)
    ensures SetReferenceColumns(db, table, names) == Put(db, table, Labelled(names), None)
    ensures KeepsName(Labelled(names))
  {
    hide FindTable, CheckRefs;
  }

  /** `set_reference_columns`. */
  method SetLabel(s: Store, table: Text, names: seq<Text>) returns (r: Result<()>)
    requires s.Valid() && s.heap.pager.sb.generation + 1 < 0x1_0000_0000_0000_0000
    modifies s, s.heap, s.heap.pager, s.heap.pager.dev
    ensures s.Tried(Failed(r), SetReferenceColumns(old(s.db), table, names), old(s.Now()))
  {
    hide Body, ChainHeap.Valid, Integrity, FindTable, Put, EncodableDB, AllFit, KeepsName, Store.Anchored, VolumeHolds,
      Labelled, SetReferenceColumns;
    SetReferenceColumnsIsPut(s.db, table, names);
    StoredFits(s);
    LabelFits(s.db, table, names);
    s.KeptIntegrity();
    if SetReferenceColumns(s.db, table, names).Success? {
      SetReferenceColumnsKeeps(s.db, table, names);
    }
    r := s.PutSchema(table, Labelled(names), None);
  }

  lemma DropFkIsPut(db: DB, table: Text, name: Text)
    ensures DropFk(db, table, name) == Put(db, table, Unlinked(name), None) && KeepsName(Unlinked(name))
  {
    hide FindTable, DropNamed;
  }

  /** `drop_fk`. */
  method DropFkNamed(s: Store, table: Text, name: Text) returns (r: Result<()>)
    requires s.Valid() && s.heap.pager.sb.generation + 1 < 0x1_0000_0000_0000_0000
    modifies s, s.heap, s.heap.pager, s.heap.pager.dev
    ensures s.Tried(Failed(r), DropFk(old(s.db), table, name), old(s.Now()))
  {
    hide Body, ChainHeap.Valid, Integrity, FindTable, Put, EncodableDB, AllFit, KeepsName, Store.Anchored, VolumeHolds,
      Unlinked, DropFk;
    DropFkIsPut(s.db, table, name);
    StoredFits(s);
    DropFkFits(s.db, table, name);
    s.KeptIntegrity();
    if DropFk(s.db, table, name).Success? {
      DropFkKeeps(s.db, table, name);
    }
    r := s.PutSchema(table, Unlinked(name), None);
  }

  /** Candidates in turn until one is free; there are at most as many refusals as there are keys. */
  method FreeFkName(fks: seq<ForeignKey>, col: Text) returns (name: Text)
    ensures name == FkName(fks, col, 0, |fks|) && !FkNameTaken(fks, name)
  {
    hide FkCandidate, FkNameTaken;
    var n := 0;
    ghost var fuel: nat, tried: set<Text> := |fks|, {};
    name := FkCandidate(col, 0);
    FkNameFree(fks, col, 0, |fks|, {});
    while FkNameTaken(fks, name)
      invariant name == FkCandidate(col, n) && (n == 0 || n >= 2)
      invariant tried <= NamesOf(fks) && |tried| + fuel == |fks|
      invariant forall x :: x in tried ==> exists m :: m < n && (m == 0 || m >= 2) && x == FkCandidate(col, m)
      invariant FkName(fks, col, 0, |fks|) == FkName(fks, col, n, fuel)
      decreases fuel
    {
      FkNameFree(fks, col, n, fuel, tried);
      TriedOne(fks, col, n, tried);
      tried, fuel := tried + {name}, fuel - 1;
      n := if n < 2 then 2 else n + 1;
      name := FkCandidate(col, n);
    }
  }

  lemma TriedOne(fks: seq<ForeignKey>, col: Text, n: nat, tried: set<Text>)
    requires FkNameTaken(fks, FkCandidate(col, n)) && (n == 0 || n >= 2) && tried <= NamesOf(fks)
    requires forall x :: x in tried ==> exists m :: m < n && (m == 0 || m >= 2) && x == FkCandidate(col, m)
    ensures FkCandidate(col, n) !in tried && FkCandidate(col, n) in NamesOf(fks)
  {
    hide FkCandidate;
    forall x | x in tried
      ensures x != FkCandidate(col, n)
    {
      var m :| m < n && (m == 0 || m >= 2) && x == FkCandidate(col, m);
      CandidatesDiffer(col, m, n);
    }
  }

  lemma AddFkIsPut(db: DB, table: Text, fromCol: Text, toTable: Text, toCol: Text)
    requires AddFk(db, table, fromCol, toTable, toCol).Success?
    ensures FindTable(db, table).Some?
    ensures var fks := db[FindTable(db, table).value].schema.fks;
      var fk := ForeignKey(FkName(fks, fromCol, 0, |fks|), fromCol, toTable, toCol);
      AddFk(db, table, fromCol, toTable, toCol) == Put(db, table, WithFk(fk), None) && KeepsName(WithFk(fk))
  {
    hide FindTable, ColumnIndex, FkName, Matched;
  }

  /** Every value of the one column stands in the other. */
  method RowsMatch(s: Store, cat: seq<CatEntry>, i: nat, fc: nat, j: nat, tc: nat) returns (ok: bool)
    requires s.Valid() && cat == s.cat && s.On(s.cat, s.db, s.tag) && |s.cat| == |s.db| && i < |cat| && j < |cat|
    modifies s.heap.pager`cache
    ensures s.Valid() && s.Now() == old(s.Now()) && ok == Matched(s.db[i].rows, fc, s.db[j].rows, tc)
  {
    hide Body, ChainHeap.InHand, Store.Anchored, Matched;
    var targets := s.RowsOf(cat[j], s.cat, s.db, s.tag, j);
    var rows := s.RowsOf(cat[i], s.cat, s.db, s.tag, i);
    return Matched(rows.value, fc, targets.value, tc);
  }

  /** `add_fk`. */
  method AddForeignKey(s: Store, table: Text, fromCol: Text, toTable: Text, toCol: Text) returns (r: Result<()>)
    requires s.Valid() && EncodableDB(AddFk(s.db, table, fromCol, toTable, toCol))
    requires s.heap.pager.sb.generation + 1 < 0x1_0000_0000_0000_0000
    modifies s, s.heap, s.heap.pager, s.heap.pager.dev
    ensures s.Tried(Failed(r), AddFk(old(s.db), table, fromCol, toTable, toCol), old(s.Now()))
  {
    hide Body, ChainHeap.InHand, Integrity, FindTable, Put, EncodableDB, AllFit, KeepsName, Store.Anchored, VolumeHolds,
      ColumnIndex, WithFk, Matched, FkName, FkNameTaken;
    var place := s.Locate(table);
    if place.Failure? { return Failure(place.error); }
    var cat, i, t := place.value.0, place.value.1, place.value.2;
    var fc := ColumnIndex(t.columns, fromCol);
    if fc.None? { return Failure(NotFound("column")); }
    var target := s.Locate(toTable);
    if target.Failure? { return Failure(target.error); }
    var j, tt := target.value.1, target.value.2;
    var tc := ColumnIndex(tt.columns, toCol);
    if tc.None? { return Failure(NotFound("column")); }
    if !tt.columns[tc.value].unique { return Failure(SchemaRejected("target must be UNIQUE")); }
    if t.columns[fc.value].ty != tt.columns[tc.value].ty {
      return Failure(SchemaRejected("column and target must share a type"));
    }
    var matched := RowsMatch(s, cat, i, fc.value, j, tc.value);
    if !matched { return Failure(SchemaRejected("existing value has no match")); }
    var name := FreeFkName(t.fks, fromCol);
    AddFkIsPut(s.db, table, fromCol, toTable, toCol);
    s.KeptIntegrity();
    AddFkKeeps(s.db, table, fromCol, toTable, toCol);
    r := s.PutSchema(table, WithFk(ForeignKey(name, fromCol, toTable, toCol)), None);
  }

  // ---- renaming ------------------------------------------------------------------------------------

  /** The rename done in the first `n` tables. */
  ghost function RenameSome(db: DB, table: Text, old_: Text, new_: Text, n: nat): (r: DB)
    ensures |r| == |db|
  {
    seq(|db|, i requires 0 <= i < |db| =>
      if i < n then db[i].(schema := Renamed(db[i].schema, table, old_, new_)) else db[i])
  }

  lemma RenameSomeStep(db: DB, table: Text, old_: Text, new_: Text, n: nat)
    requires n < |db|
    ensures var r, t := RenameSome(db, table, old_, new_, n), Renamed(db[n].schema, table, old_, new_);
      && r[n] == db[n] && RenameSome(db, table, old_, new_, n + 1) == r[n := r[n].(schema := t)]
      && (t == db[n].schema ==> RenameSome(db, table, old_, new_, n + 1) == r)
  {
    hide Renamed;
  }

  lemma RenameEnds(db: DB, table: Text, old_: Text, new_: Text)
    ensures RenameSome(db, table, old_, new_, 0) == db
    ensures RenameSome(db, table, old_, new_, |db|) == RenameAll(db, table, old_, new_)
  {
    hide Renamed;
  }

  /** Every schema that mentions the column is written anew. */
  method RenameIn(s: Store, table: Text, old_: Text, new_: Text)
    returns (r: Result<()>, ghost cat1: seq<CatEntry>, ghost db1: DB, ghost tag1: map<u64, Text>)
    requires s.Valid() && s.On(s.cat, s.db, s.tag) && |s.cat| == |s.db|
    requires forall d :: 0 <= d < |s.db| ==> EncodableTable(Renamed(s.db[d].schema, table, old_, new_))
    modifies s.heap, s.heap.pager`sb, s.heap.pager`dirty, s.heap.pager`cache
    ensures s.heap.pager.Valid() && s.heap.pager.sb.generation == old(s.heap.pager.sb.generation)
    ensures r.Success? ==> s.Staged(cat1, db1, tag1) && db1 == RenameAll(s.db, table, old_, new_)
    ensures r.Failure? ==> r.error == OutOfSpace
  {
    hide Body, Integrity, Owned, Pager.Valid, Store.Anchored, Renamed, EncodableTable, RenameSome, RenameAll, EncodeCat;
    var now := s.Catalog();
    cat1, db1, tag1 := now, s.db, s.tag;
    RenameEnds(s.db, table, old_, new_);
    for idx := 0 to |now|
      invariant s.On(now, db1, tag1) && |now| == |s.db| && db1 == RenameSome(s.db, table, old_, new_, idx)
      invariant Fixed(s.heap.pager.sb) == old(Fixed(s.heap.pager.sb))
    {
      RenameSomeStep(s.db, table, old_, new_, idx);
      var ot := s.SchemaOf(now[idx], now, db1, tag1, idx);
      var renamed := Renamed(ot.value, table, old_, new_);
      if renamed != ot.value {
        var swapped;
        swapped, db1, tag1 := s.SwapSchema(now, idx, renamed, db1, tag1);
        if swapped.Failure? { return Failure(OutOfSpace), cat1, db1, tag1; }
        now := swapped.value;
      }
    }
    cat1 := now;
    r := s.StoreCatalog(now, db1, tag1);
  }

  /** `rename_column`; renaming a column to its own name does nothing. */
  method RenameColumnTo(s: Store, table: Text, old_: Text, new_: Text) returns (r: Result<()>)
    requires s.Valid() && |new_| < TWO64
    requires s.heap.pager.sb.generation + 1 < 0x1_0000_0000_0000_0000
    modifies s, s.heap, s.heap.pager, s.heap.pager.dev
    ensures if new_ != [] && old_ == new_ then r.Success? && s.Valid() && s.Now() == old(s.Now())
      else s.Tried(Failed(r), RenameColumn(old(s.db), table, old_, new_), old(s.Now()))
  {
    hide Body, ChainHeap.InHand, Integrity, FindTable, EncodableDB, AllFit, Store.Anchored, VolumeHolds, ColumnIndex,
      Renamed, RenameAll, EncodableTable;
    if new_ == [] { return Failure(SchemaRejected("column name is empty")); }
    if old_ == new_ { return Success(()); }
    var place := s.Locate(table);
    if place.Failure? { return Failure(place.error); }
    var t := place.value.2;
    if ColumnIndex(t.columns, old_).None? { return Failure(NotFound("column")); }
    if ColumnIndex(t.columns, new_).Some? { return Failure(Duplicate("column")); }
    r := CommitRename(s, table, old_, new_);
  }

  lemma RenameIs(db: DB, table: Text, old_: Text, new_: Text)
    requires RenameColumn(db, table, old_, new_).Success? && old_ != new_
    ensures RenameColumn(db, table, old_, new_).value == RenameAll(db, table, old_, new_)
  {
    hide FindTable, ColumnIndex, RenameAll;
  }

  method CommitRename(s: Store, table: Text, old_: Text, new_: Text) returns (r: Result<()>)
    requires s.Valid() && s.On(s.cat, s.db, s.tag) && |s.cat| == |s.db|
    requires RenameColumn(s.db, table, old_, new_).Success? && old_ != new_ && |new_| < TWO64
    requires s.heap.pager.sb.generation + 1 < 0x1_0000_0000_0000_0000
    modifies s, s.heap, s.heap.pager, s.heap.pager.dev
    ensures s.Tried(Failed(r), RenameColumn(old(s.db), table, old_, new_), old(s.Now()))
  {
    hide Body, ChainHeap.Valid, Pager.Valid, Integrity, Owned, DiskView, Bears, EncodableDB, AllFit, RenameColumn,
      RenameAll, VolumeHolds, Store.Anchored, ChainHeap.InHand, Pager.Committed, Pager.Contents, Holds;
    StoredFits(s);
    RenameFits(s.db, table, old_, new_);
    RenameIs(s.db, table, old_, new_);
    ghost var cat1, db1, tag1;
    r, cat1, db1, tag1 := RenameIn(s, table, old_, new_);
    if r.Failure? {
      s.Abort();
      return;
    }
    s.KeptIntegrity();
    RenameColumnKeeps(s.db, table, old_, new_);
    var done := s.Finish(cat1, db1, tag1);
    if done.Failure? { r := Failure(done.error); }
  }
}
