/** Edits that add no text and no row fit a store that fits already. */
module StoreFits {
  import opened Errors
  import opened Bytes
  import opened Bignum
  import opened Codec
  import opened Schema
  import opened Pager
  import opened ChainModel
  import opened Chains
  import opened ChainStore
  import opened Relational
  import opened SchemaEdits
  import opened StoreModel
  import opened StoreSteps
  import opened Store

  /** Every count and every text of the table fits a machine word. */
  ghost predicate TableFits(t: TableState) {
    EncodableTable(t.schema) && AllStorable(t.rows)
  }

  ghost predicate AllFit(db: DB) {
    forall d :: 0 <= d < |db| ==> TableFits(db[d])
  }

  lemma FitsMeans(db: DB)
    ensures AllFit(db) <==> EncodableDB(Success(db))
  {
    hide EncodableTable, AllStorable;
    if EncodableDB(Success(db)) {
      forall d | 0 <= d < |db|
        ensures TableFits(db[d])
      {
        assert EncodableTable(Success(db).value[d].schema) && AllStorable(Success(db).value[d].rows);
      }
    }
    if AllFit(db) {
      forall d | 0 <= d < |db|
        ensures EncodableTable(db[d].schema) && AllStorable(db[d].rows)
      {
        assert TableFits(db[d]);
      }
    }
  }

  lemma RefusalFits(want: Result<DB>)
    ensures want.Failure? ==> EncodableDB(want)
  {
  }

  lemma ReplaceFits(db: DB, i: nat, t: TableState)
    requires AllFit(db) && i < |db| && TableFits(t)
    ensures EncodableDB(Success(db[i := t]))
  {
    hide TableFits, EncodableDB;
    FitsMeans(db[i := t]);
  }

  /** What is stored fits: it was read from, or written to, the pages. */
  lemma StoredFits(s: Store)
    requires s.Valid()
    ensures AllFit(s.db)
  {
    hide Owned, Integrity, DiskView, EncodeCat, Body, EncodableTable, EncodeTable, RowsHold, Entries, Pager.Valid;
    var blobs, indexes := s.base.blobs - {s.heap.pager.sb.catalogHead}, s.base.indexes;
    BodyLength(blobs, indexes, s.cat, s.db, s.tag);
    forall d | 0 <= d < |s.db|
      ensures TableFits(s.db[d])
    {
      BodyTable(blobs, indexes, s.cat, s.db, s.tag, d);
      HeldRowsFit(blobs, Entries(indexes[s.cat[d].dataHead]), s.db[d].rows);
    }
  }

  lemma HeldRowsFit(blobs: Blobs, es: seq<(RowId, u64)>, rows: Rows)
    requires RowsHold(blobs, es, rows)
    ensures AllStorable(rows)
  {
    hide StorableRow, EncodeRow;
  }

  // ---- schemas made of parts of a schema that fits ---------------------------------------------------

  lemma RemoveShorter(names: seq<Text>, n: Text)
    ensures |Remove(names, n)| <= |names|
  {
  }

  lemma DropColumnFits(db: DB, table: Text, col: Text)
    requires AllFit(db)
    ensures EncodableDB(DropColumn(db, table, col))
  {
    hide EncodableDB, LeavesFrom, Targeted, ColumnIndex, FindTable, WithoutColumn, TableFits;
    RefusalFits(DropColumn(db, table, col));
    if DropColumn(db, table, col).Success? {
      var i := FindTable(db, table).value;
      WithoutFits(db[i], ColumnIndex(db[i].schema.columns, col).value, col);
      ReplaceFits(db, i, WithoutColumn(db[i], ColumnIndex(db[i].schema.columns, col).value, col));
    }
  }

  lemma WithoutFits(t: TableState, idx: nat, col: Text)
    requires TableFits(t) && idx < |t.schema.columns|
    ensures TableFits(WithoutColumn(t, idx, col))
  {
    hide Storable;
    var t' := WithoutColumn(t, idx, col);
    RemoveShorter(t.schema.refCols, col);
    forall k | 0 <= k < |t'.rows|
      ensures StorableRow(t'.rows[k].1)
    {
      assert StorableRow(t.rows[k].1);
    }
  }

  lemma MoveColumnFits(db: DB, table: Text, col: Text, newIndex: nat)
    requires AllFit(db)
    ensures EncodableDB(MoveColumn(db, table, col, newIndex))
  {
    hide EncodableDB, ColumnIndex, FindTable, WithMovedColumn, TableFits;
    RefusalFits(MoveColumn(db, table, col, newIndex));
    if MoveColumn(db, table, col, newIndex).Success? {
      var i := FindTable(db, table).value;
      var from := ColumnIndex(db[i].schema.columns, col).value;
      FitsMeans(db);
      if newIndex != from {
        MovedFits(db[i], from, newIndex);
        ReplaceFits(db, i, WithMovedColumn(db[i], from, newIndex));
      }
    }
  }

  lemma MovedWithin<T>(xs: seq<T>, from: nat, to: nat)
    requires from < |xs| && to < |xs|
    ensures forall x :: x in Moved(xs, from, to) ==> x in xs
  {
  }

  lemma MovedFits(t: TableState, from: nat, to: nat)
    requires TableFits(t) && from < |t.schema.columns| && to < |t.schema.columns|
    ensures TableFits(WithMovedColumn(t, from, to))
  {
    hide Storable, Moved;
    var t', n := WithMovedColumn(t, from, to), |t.schema.columns|;
    MovedWithin(t.schema.columns, from, to);
    forall k | 0 <= k < |t'.rows|
      ensures StorableRow(t'.rows[k].1)
    {
      assert StorableRow(t.rows[k].1);
      FittedWithin(t.rows[k].1, n);
      MovedWithin(Fitted(t.rows[k].1, n), from, to);
    }
  }

  lemma FittedWithin(row: Row, n: nat)
    requires StorableRow(row)
    ensures forall c :: c in Fitted(row, n) ==> Storable(c)
  {
    forall c | c in Fitted(row, n)
      ensures Storable(c)
    {
      assert c in row || c == None;
    }
  }

  lemma FlagsFit(t: TableState, ci: nat, c: Column)
    requires TableFits(t) && ci < |t.schema.columns| && c.name == t.schema.columns[ci].name
    ensures TableFits(WithFlags(t, ci, c))
  {
    hide AllStorable;
    var cols' := t.schema.columns[ci := c];
    forall x | x in cols'
      ensures |x.name| < TWO64
    {
      var k :| 0 <= k < |cols'| && cols'[k] == x;
      assert t.schema.columns[k] in t.schema.columns;
    }
  }

  lemma SetUniqueFits(db: DB, table: Text, col: Text, unique: bool)
    requires AllFit(db)
    ensures EncodableDB(SetUnique(db, table, col, unique))
  {
    hide EncodableDB, ColumnIndex, FindTable, TableFits, Targeted, NoDuplicates;
    RefusalFits(SetUnique(db, table, col, unique));
    if SetUnique(db, table, col, unique).Success? {
      var i := FindTable(db, table).value;
      var ci := ColumnIndex(db[i].schema.columns, col).value;
      var c := db[i].schema.columns[ci].(unique := unique);
      FlagsFit(db[i], ci, c);
      ReplaceFits(db, i, WithFlags(db[i], ci, c));
    }
  }

  lemma SetDisplayWidthFits(db: DB, table: Text, col: Text, width: Option<u16>)
    requires AllFit(db)
    ensures EncodableDB(SetDisplayWidth(db, table, col, width))
  {
    hide EncodableDB, ColumnIndex, FindTable, TableFits;
    RefusalFits(SetDisplayWidth(db, table, col, width));
    if SetDisplayWidth(db, table, col, width).Success? {
      var i := FindTable(db, table).value;
      var ci := ColumnIndex(db[i].schema.columns, col).value;
      var c := db[i].schema.columns[ci].(displayWidth := width);
      FlagsFit(db[i], ci, c);
      ReplaceFits(db, i, WithFlags(db[i], ci, c));
    }
  }

  lemma DropFkFits(db: DB, table: Text, name: Text)
    requires AllFit(db)
    ensures EncodableDB(DropFk(db, table, name))
  {
    hide EncodableDB, FindTable, DropNamed, EncodableFk, AllStorable;
    RefusalFits(DropFk(db, table, name));
    if DropFk(db, table, name).Success? {
      var i := FindTable(db, table).value;
      var t := db[i];
      assert TableFits(t);
      DropNamedMeans(t.schema.fks, name);
      DropNamedShrinks(t.schema.fks, name);
      ReplaceFits(db, i, t.(schema := t.schema.(fks := DropNamed(t.schema.fks, name))));
    }
  }

  /** The places of the first `n` names. */
  ghost function PlacesOf(cols: seq<Column>, names: seq<Text>, n: nat): set<nat>
    requires n <= |names| && forall x :: x in names ==> ColumnIndex(cols, x).Some?
  {
    if n == 0 then {} else PlacesOf(cols, names, n - 1) + {ColumnIndex(cols, names[n - 1]).value}
  }

  lemma {:induction false} DistinctPlaces(cols: seq<Column>, names: seq<Text>, n: nat)
    requires n <= |names| && Distinct(names) && forall x :: x in names ==> ColumnIndex(cols, x).Some?
    ensures |PlacesOf(cols, names, n)| == n
    ensures forall p :: p in PlacesOf(cols, names, n) ==> p < |cols|
    ensures forall k :: n <= k < |names| ==> ColumnIndex(cols, names[k]).value !in PlacesOf(cols, names, n)
  {
    hide ColumnIndex;
    if n > 0 {
      DistinctPlaces(cols, names, n - 1);
      forall k | n <= k < |names|
        ensures ColumnIndex(cols, names[k]).value != ColumnIndex(cols, names[n - 1]).value
      {
        assert names[k] != names[n - 1];
      }
    }
  }

  /** Distinct names of columns are no more than the columns. */
  lemma FewLabels(cols: seq<Column>, names: seq<Text>)
    requires Distinct(names) && forall n :: n in names ==> ColumnIndex(cols, n).Some?
    ensures |names| <= |cols|
  {
    hide ColumnIndex;
    DistinctPlaces(cols, names, |names|);
    PlacesBelow(PlacesOf(cols, names, |names|), |cols|);
  }

  lemma {:induction false} PlacesBelow(s: set<nat>, n: nat)
    requires forall x :: x in s ==> x < n
    ensures |s| <= n
  {
    if n == 0 {
      assert s == {};
    } else {
      PlacesBelow(s - {n - 1}, n - 1);
      assert s <= (s - {n - 1}) + {n - 1};
    }
  }

  lemma LabelFits(db: DB, table: Text, names: seq<Text>)
    requires AllFit(db)
    ensures EncodableDB(SetReferenceColumns(db, table, names))
  {
    hide EncodableDB, FindTable, AllStorable, ColumnIndex, Distinct, CheckRefs;
    RefusalFits(SetReferenceColumns(db, table, names));
    if SetReferenceColumns(db, table, names).Success? {
      SetReferenceColumnsAccepts(db, table, names);
      var i := FindTable(db, table).value;
      var t := db[i];
      assert TableFits(t);
      FewLabels(t.schema.columns, names);
      forall n | n in names
        ensures |n| < TWO64
      {
        assert t.schema.columns[ColumnIndex(t.schema.columns, n).value] in t.schema.columns;
      }
      ReplaceFits(db, i, t.(schema := t.schema.(refCols := names)));
    }
  }

  lemma RenamedFits(t: Table, table: Text, old_: Text, new_: Text)
    requires EncodableTable(t) && |new_| < TWO64
    ensures EncodableTable(Renamed(t, table, old_, new_))
  {
    var t' := Renamed(t, table, old_, new_);
    forall c | c in t'.columns
      ensures |c.name| < TWO64
    {
      var k :| 0 <= k < |t'.columns| && t'.columns[k] == c;
      assert t.columns[k] in t.columns;
    }
    forall f | f in t'.fks
      ensures EncodableFk(f)
    {
      var k :| 0 <= k < |t'.fks| && t'.fks[k] == f;
      assert t.fks[k] in t.fks && EncodableFk(t.fks[k]);
    }
    forall n | n in t'.refCols
      ensures |n| < TWO64
    {
      var k :| 0 <= k < |t'.refCols| && t'.refCols[k] == n;
      assert t.refCols[k] in t.refCols;
    }
  }

  /** A rename fits when the new name does. */
  lemma RenameFits(db: DB, table: Text, old_: Text, new_: Text)
    requires AllFit(db) && |new_| < TWO64
    ensures forall d :: 0 <= d < |db| ==> EncodableTable(Renamed(db[d].schema, table, old_, new_))
  {
    hide EncodableTable, Renamed, AllStorable;
    forall d | 0 <= d < |db|
      ensures EncodableTable(Renamed(db[d].schema, table, old_, new_))
    {
      assert TableFits(db[d]);
      RenamedFits(db[d].schema, table, old_, new_);
    }
  }
}
