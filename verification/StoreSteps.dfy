/** How each change of blobs and slots changes the database they stand for. */
module StoreSteps {
  import opened Errors
  import opened Bytes
  import opened Bignum
  import opened Codec
  import opened Schema
  import opened ChainModel
  import opened Chains
  import opened ChainStore
  import opened Relational
  import opened StoreModel

  ghost function OwnOf(cat: seq<CatEntry>, tag: map<u64, Text>, i: nat): set<u64>
    requires i < |cat|
  {
    Owns(tag, cat[i].name)
  }

  lemma BodyTable(blobs: Blobs, indexes: Indexes, cat: seq<CatEntry>, db: DB, tag: map<u64, Text>, i: nat)
    requires Body(blobs, indexes, cat, db, tag) && i < |cat|
    ensures |db| == |cat| && TableHolds(blobs, indexes, OwnOf(cat, tag, i), cat[i], db[i])
    ensures OwnOf(cat, tag, i) <= blobs.Keys
    ensures cat[i].dataHead in indexes && indexes[cat[i].dataHead] != []
    ensures cat[i].schemaHead in blobs && blobs[cat[i].schemaHead] == EncodeTable(db[i].schema) &&
      EncodableTable(db[i].schema)
    ensures RowsHold(blobs, Entries(indexes[cat[i].dataHead]), db[i].rows)
    ensures cat[i].name == db[i].schema.name && cat[i].rowCount == |db[i].rows|
  {
  }

  // ---- rows -------------------------------------------------------------------------------

  lemma RowsHoldFrame(blobs: Blobs, blobs': Blobs, es: seq<(RowId, u64)>, rows: Rows)
    requires RowsHold(blobs, es, rows)
    requires forall h :: h in EntryHeads(es) ==> h in blobs && h in blobs' && blobs'[h] == blobs[h]
    ensures RowsHold(blobs', es, rows)
  {
    hide StorableRow, EncodeRow;
    forall k | 0 <= k < |es|
      ensures es[k].1 in blobs' && blobs'[es[k].1] == blobs[es[k].1]
    {
      assert es[k].1 in EntryHeads(es);
    }
  }

  lemma HeadListed(es: seq<(RowId, u64)>, k: nat)
    requires k < |es|
    ensures es[k].1 in EntryHeads(es)
  {
  }

  lemma HeadsPush(es: seq<(RowId, u64)>, e: (RowId, u64))
    ensures EntryHeads(es + [e]) == EntryHeads(es) + {e.1}
    ensures DistinctHeads(es) && e.1 !in EntryHeads(es) ==> DistinctHeads(es + [e])
  {
    var more := es + [e];
    assert more[|es|] == e;
    forall k | 0 <= k < |es|
      ensures es[k].1 in EntryHeads(more) && es[k].1 in EntryHeads(es)
    {
      assert more[k] == es[k];
    }
  }

  lemma HeadsSet(es: seq<(RowId, u64)>, p: nat, e: (RowId, u64))
    requires p < |es| && DistinctHeads(es) && e.1 !in EntryHeads(es) - {es[p].1}
    ensures EntryHeads(es[p := e]) == EntryHeads(es) - {es[p].1} + {e.1}
    ensures DistinctHeads(es[p := e])
  {
    var es' := es[p := e];
    forall k | 0 <= k < |es|
      ensures k != p ==> es[k].1 in EntryHeads(es') && es[k].1 in EntryHeads(es) && es[k].1 != es[p].1 && es[k].1 != e.1
    {
      assert k != p ==> es'[k] == es[k] && es[k].1 in EntryHeads(es);
    }
    assert es'[p] == e;
  }

  lemma HeadsDrop(es: seq<(RowId, u64)>, p: nat)
    requires p < |es| && DistinctHeads(es)
    ensures EntryHeads(Without(es, p)) == EntryHeads(es) - {es[p].1}
    ensures DistinctHeads(Without(es, p))
  {
    var es' := Without(es, p);
    assert forall k :: 0 <= k < |es'| ==> es'[k] == es[if k < p then k else k + 1];
    forall k | 0 <= k < |es|
      ensures k != p ==> es[k].1 in EntryHeads(es')
    {
      assert k != p ==> es'[if k < p then k else k - 1] == es[k];
    }
  }

  lemma RowsPush(blobs: Blobs, es: seq<(RowId, u64)>, rows: Rows, id: RowId, h: u64, cells: Row)
    requires RowsHold(blobs, es, rows) && StorableRow(cells) && h !in EntryHeads(es)
    ensures RowsHold(blobs[h := EncodeRow(cells)], es + [(id, h)], rows + [(id, cells)])
  {
    hide StorableRow, EncodeRow;
    var blobs' := blobs[h := EncodeRow(cells)];
    forall k | 0 <= k < |es|
      ensures es[k].1 != h
    {
      HeadListed(es, k);
    }
  }

  lemma RowsSet(blobs: Blobs, es: seq<(RowId, u64)>, rows: Rows, p: nat, h: u64, cells: Row)
    requires RowsHold(blobs, es, rows) && DistinctHeads(es) && StorableRow(cells) && p < |es|
    requires h !in EntryHeads(es) - {es[p].1}
    ensures RowsHold((blobs - {es[p].1})[h := EncodeRow(cells)], es[p := (es[p].0, h)], rows[p := (es[p].0, cells)])
  {
    hide StorableRow, EncodeRow;
    forall k | 0 <= k < |es| && k != p
      ensures es[k].1 != h && es[k].1 != es[p].1
    {
      HeadListed(es, k);
    }
  }

  lemma RowsDrop(blobs: Blobs, es: seq<(RowId, u64)>, rows: Rows, p: nat)
    requires RowsHold(blobs, es, rows) && DistinctHeads(es) && p < |es|
    ensures RowsHold(blobs - {es[p].1}, Without(es, p), Without(rows, p))
  {
    hide StorableRow, EncodeRow;
    var es' := Without(es, p);
    forall k | 0 <= k < |es'|
      ensures es'[k] == es[if k < p then k else k + 1] && es'[k].1 != es[p].1
    {
    }
  }

  lemma IndexStays(ix: seq<IndexPage>, page: u64, k: nat, id: RowId, x: u64)
    requires ix != []
    ensures Appended(ix, page, x) != []
    ensures SlotIn(ix, k, id) ==> WithSlot(ix, k, id, x) != []
  {
  }

  /** One row of a table behind another blob. */
  lemma TableSetRow(blobs: Blobs, indexes: Indexes, own: set<u64>, e: CatEntry, t: TableState, p: nat, h: u64,
                    cells: Row, ix': seq<IndexPage>)
    requires TableHolds(blobs, indexes, own, e, t) && StorableRow(cells) && own <= blobs.Keys
    requires p < |Entries(indexes[e.dataHead])| && h !in blobs.Keys - {Entries(indexes[e.dataHead])[p].1}
    requires var es := Entries(indexes[e.dataHead]);
      ix' != [] && Entries(ix') == es[p := (es[p].0, h)]
    ensures var old_ := Entries(indexes[e.dataHead])[p];
      TableHolds((blobs - {old_.1})[h := EncodeRow(cells)], indexes[e.dataHead := ix'], own - {old_.1} + {h}, e,
                 t.(rows := t.rows[p := (old_.0, cells)]))
  {
    hide StorableRow, EncodeRow, EncodableTable, EncodeTable, Entries, RowsHold, DistinctHeads, EntryHeads;
    var es := Entries(indexes[e.dataHead]);
    HeadListed(es, p);
    HeadsSet(es, p, (es[p].0, h));
    RowsLength(blobs, es, t.rows);
    RowsSet(blobs, es, t.rows, p, h, cells);
  }

  /** One row of a table gone. */
  lemma TableDropRow(blobs: Blobs, indexes: Indexes, own: set<u64>, e: CatEntry, t: TableState, p: nat,
                     ix': seq<IndexPage>)
    requires TableHolds(blobs, indexes, own, e, t) && p < |Entries(indexes[e.dataHead])|
    requires ix' != [] && Entries(ix') == Without(Entries(indexes[e.dataHead]), p)
    ensures |t.rows| == |Entries(indexes[e.dataHead])| && e.rowCount > 0
    ensures var old_ := Entries(indexes[e.dataHead])[p];
      TableHolds(blobs - {old_.1}, indexes[e.dataHead := ix'], own - {old_.1}, e.(rowCount := e.rowCount - 1),
                 t.(rows := Without(t.rows, p)))
  {
    hide StorableRow, EncodeRow, EncodableTable, EncodeTable, Entries, RowsHold, DistinctHeads, EntryHeads, Without;
    var es := Entries(indexes[e.dataHead]);
    HeadListed(es, p);
    HeadsDrop(es, p);
    RowsLength(blobs, es, t.rows);
    RowsDrop(blobs, es, t.rows, p);
  }

  lemma RowsLength(blobs: Blobs, es: seq<(RowId, u64)>, rows: Rows)
    requires RowsHold(blobs, es, rows)
    ensures |es| == |rows|
    ensures forall k :: 0 <= k < |es| ==> es[k].0 == rows[k].0 && es[k].1 in blobs
  {
  }

  /** A row's blob and its slot at the end of the index append the row. */
  lemma AddRow(blobs: Blobs, indexes: Indexes, cat: seq<CatEntry>, db: DB, tag: map<u64, Text>, i: nat,
               h: u64, page: u64, cells: Row) returns (cat': seq<CatEntry>, tag': map<u64, Text>)
    requires Body(blobs, indexes, cat, db, tag) && i < |cat|
    requires h !in blobs && h != 0 && StorableRow(cells) && cat[i].rowCount + 1 < TWO64
    requires cat[i].dataHead in indexes && indexes[cat[i].dataHead] != []
    ensures cat' == cat[i := cat[i].(rowCount := cat[i].rowCount + 1)] && |db| == |cat|
    ensures var ix := indexes[cat[i].dataHead];
      Body(blobs[h := EncodeRow(cells)], indexes[cat[i].dataHead := Appended(ix, page, h)], cat',
           db[i := db[i].(rows := db[i].rows + [(AppendedId(ix, page), cells)])], tag')
  {
    hide StorableRow, EncodeRow, EncodableTable, EncodeTable, Entries, Appended, AppendedId, Body;
    BodyTable(blobs, indexes, cat, db, tag, i);
    var e, own := cat[i], OwnOf(cat, tag, i);
    var ix := indexes[e.dataHead];
    var es := Entries(ix);
    var e', own' := e.(rowCount := e.rowCount + 1), own + {h};
    cat', tag' := cat[i := e'], Retag(tag, own, own', e.name);
    IndexStays(ix, page, 0, AppendedId(ix, page), h);
    EntriesAppended(ix, page, h);
    HeadsPush(es, (AppendedId(ix, page), h));
    RowsPush(blobs, es, db[i].rows, AppendedId(ix, page), h, cells);
    ReplaceTable(blobs, indexes, cat, db, tag, i, blobs[h := EncodeRow(cells)],
      indexes[e.dataHead := Appended(ix, page, h)], own', e',
      db[i].(rows := db[i].rows + [(AppendedId(ix, page), cells)]));
  }

  /** A live slot's row: where it stands in the table. */
  lemma LiveRow(blobs: Blobs, indexes: Indexes, cat: seq<CatEntry>, db: DB, tag: map<u64, Text>, i: nat, k: nat,
                id: RowId)
    returns (p: nat)
    requires Body(blobs, indexes, cat, db, tag) && i < |cat| && cat[i].dataHead in indexes
    requires SlotIn(indexes[cat[i].dataHead], k, id) && indexes[cat[i].dataHead][k].slots[id.slot] != 0
    ensures |db| == |cat| && p < |db[i].rows| && db[i].rows[p].0 == id
    ensures var es, old_ := Entries(indexes[cat[i].dataHead]), indexes[cat[i].dataHead][k].slots[id.slot];
      && p < |es| && es[p] == (id, old_)
      && old_ in blobs && StorableRow(db[i].rows[p].1) && blobs[old_] == EncodeRow(db[i].rows[p].1)
  {
    hide StorableRow, EncodeRow, Entries, EncodableTable, EncodeTable, Body, WithSlot;
    BodyTable(blobs, indexes, cat, db, tag, i);
    p := EntriesSet(indexes[cat[i].dataHead], k, id, 0);
  }

  /** A new blob behind a live slot replaces its row. The new chain may reuse the old one's first page. */
  lemma SetRow(blobs: Blobs, indexes: Indexes, cat: seq<CatEntry>, db: DB, tag: map<u64, Text>, i: nat,
               k: nat, id: RowId, h: u64, cells: Row) returns (p: nat, tag': map<u64, Text>)
    requires Body(blobs, indexes, cat, db, tag) && i < |cat| && cat[i].dataHead in indexes
    requires SlotIn(indexes[cat[i].dataHead], k, id) && indexes[cat[i].dataHead][k].slots[id.slot] != 0
    requires h !in blobs.Keys - {indexes[cat[i].dataHead][k].slots[id.slot]} && h != 0 && StorableRow(cells)
    ensures |db| == |cat| && p < |db[i].rows| && db[i].rows[p].0 == id
    ensures var ix := indexes[cat[i].dataHead];
      p < |Entries(ix)| && Entries(WithSlot(ix, k, id, h)) == Entries(ix)[p := (id, h)]
    ensures var ix := indexes[cat[i].dataHead];
      Body((blobs - {ix[k].slots[id.slot]})[h := EncodeRow(cells)], indexes[cat[i].dataHead := WithSlot(ix, k, id, h)],
           cat, db[i := db[i].(rows := db[i].rows[p := (id, cells)])], tag')
  {
    hide StorableRow, EncodeRow, EncodableTable, EncodeTable, Entries, Body, WithSlot, TableHolds, RowsHold;
    BodyTable(blobs, indexes, cat, db, tag, i);
    var e, own := cat[i], OwnOf(cat, tag, i);
    var ix := indexes[e.dataHead];
    var es, old_ := Entries(ix), ix[k].slots[id.slot];
    p := EntriesSet(ix, k, id, h);
    IndexStays(ix, 0, k, id, h);
    var own' := own - {old_} + {h};
    tag' := Retag(tag, own, own', e.name);
    RowsLength(blobs, es, db[i].rows);
    TableSetRow(blobs, indexes, own, e, db[i], p, h, cells, WithSlot(ix, k, id, h));
    HeadOwned(blobs, indexes, own, e, db[i], p);
    ReplaceTable(blobs, indexes, cat, db, tag, i, (blobs - {old_})[h := EncodeRow(cells)],
      indexes[e.dataHead := WithSlot(ix, k, id, h)], own', e, db[i].(rows := db[i].rows[p := (id, cells)]));
    assert cat[i := e] == cat;
  }

  /** A tombstone takes the row out. */
  lemma DropRow(blobs: Blobs, indexes: Indexes, cat: seq<CatEntry>, db: DB, tag: map<u64, Text>, i: nat, k: nat,
                id: RowId)
    returns (p: nat, cat': seq<CatEntry>, tag': map<u64, Text>)
    requires Body(blobs, indexes, cat, db, tag) && i < |cat| && cat[i].dataHead in indexes
    requires SlotIn(indexes[cat[i].dataHead], k, id) && indexes[cat[i].dataHead][k].slots[id.slot] != 0
    ensures |db| == |cat| && p < |db[i].rows| && db[i].rows[p].0 == id && cat[i].rowCount > 0
    ensures cat' == cat[i := cat[i].(rowCount := cat[i].rowCount - 1)]
    ensures var ix := indexes[cat[i].dataHead];
      Body(blobs - {ix[k].slots[id.slot]}, indexes[cat[i].dataHead := WithSlot(ix, k, id, 0)], cat',
           db[i := db[i].(rows := Without(db[i].rows, p))], tag')
  {
    hide StorableRow, EncodeRow, EncodableTable, EncodeTable, Entries, Body, WithSlot, Without, TableHolds, RowsHold;
    BodyTable(blobs, indexes, cat, db, tag, i);
    var e, own := cat[i], OwnOf(cat, tag, i);
    var ix := indexes[e.dataHead];
    var es, old_ := Entries(ix), ix[k].slots[id.slot];
    p := EntriesSet(ix, k, id, 0);
    IndexStays(ix, 0, k, id, 0);
    TableDropRow(blobs, indexes, own, e, db[i], p, WithSlot(ix, k, id, 0));
    HeadOwned(blobs, indexes, own, e, db[i], p);
    RowsLength(blobs, es, db[i].rows);
    var e', own' := e.(rowCount := e.rowCount - 1), own - {old_};
    cat', tag' := cat[i := e'], Retag(tag, own, own', e.name);
    ReplaceTable(blobs, indexes, cat, db, tag, i, blobs - {old_},
      indexes[e.dataHead := WithSlot(ix, k, id, 0)], own', e', db[i].(rows := Without(db[i].rows, p)));
  }

  lemma HeadOwned(blobs: Blobs, indexes: Indexes, own: set<u64>, e: CatEntry, t: TableState, p: nat)
    requires TableHolds(blobs, indexes, own, e, t) && p < |Entries(indexes[e.dataHead])|
    ensures Entries(indexes[e.dataHead])[p].1 in own
  {
    hide Entries;
    HeadListed(Entries(indexes[e.dataHead]), p);
  }

  // ---- schemas ----------------------------------------------------------------------------

  /** A new schema blob in place of the old one. */
  lemma SetSchema(blobs: Blobs, indexes: Indexes, cat: seq<CatEntry>, db: DB, tag: map<u64, Text>, i: nat, h: u64,
                  schema: Table)
    returns (cat': seq<CatEntry>, tag': map<u64, Text>)
    requires Body(blobs, indexes, cat, db, tag) && i < |cat| && h !in blobs
    requires |db| == |cat| && schema.name == db[i].schema.name && EncodableTable(schema)
    ensures cat' == cat[i := cat[i].(schemaHead := h)]
    ensures cat[i].schemaHead in blobs
    ensures Body(blobs[h := EncodeTable(schema)] - {cat[i].schemaHead}, indexes, cat',
      db[i := db[i].(schema := schema)], tag')
  {
    hide StorableRow, EncodeRow, EncodableTable, EncodeTable, Entries, Body;
    BodyTable(blobs, indexes, cat, db, tag, i);
    var e, own := cat[i], OwnOf(cat, tag, i);
    var es := Entries(indexes[e.dataHead]);
    var e', own' := e.(schemaHead := h), own - {e.schemaHead} + {h};
    var blobs' := blobs[h := EncodeTable(schema)] - {e.schemaHead};
    cat', tag' := cat[i := e'], Retag(tag, own, own', e.name);
    RowsHoldFrame(blobs, blobs', es, db[i].rows);
    assert indexes[e.dataHead := indexes[e.dataHead]] == indexes;
    ReplaceTable(blobs, indexes, cat, db, tag, i, blobs', indexes, own', e', db[i].(schema := schema));
  }

  // ---- tables -----------------------------------------------------------------------------

  lemma OwnsFresh(blobs: Blobs, indexes: Indexes, cat: seq<CatEntry>, db: DB, tag: map<u64, Text>, name: Text)
    requires Body(blobs, indexes, cat, db, tag) && FindTable(db, name).None?
    ensures name !in TableNames(cat) && Owns(tag, name) == {}
  {
    hide EncodableTable, EncodeTable, RowsHold, Entries, FindTable;
    forall d | 0 <= d < |cat|
      ensures cat[d].name != name
    {
      BodyTable(blobs, indexes, cat, db, tag, d);
    }
    forall h | h in tag
      ensures tag[h] != name
    {
      assert tag[h] in tag.Values;
    }
  }

  /** A schema blob and an empty index make a table without rows. */
  lemma AddTable(blobs: Blobs, indexes: Indexes, cat: seq<CatEntry>, db: DB, tag: map<u64, Text>,
                 schema: Table, h: u64, data: u64, ix: seq<IndexPage>)
    returns (cat': seq<CatEntry>, tag': map<u64, Text>)
    requires Body(blobs, indexes, cat, db, tag) && FindTable(db, schema.name).None?
    requires h !in blobs && data !in indexes && EncodableTable(schema) && ix != [] && Entries(ix) == []
    ensures cat' == cat + [CatEntry(schema.name, h, data, 0)]
    ensures Body(blobs[h := EncodeTable(schema)], indexes[data := ix], cat', db + [TableState(schema, [])], tag')
  {
    hide EncodableTable, EncodeTable, Entries, FindTable, TableNames, DataHeads, TableHolds;
    var e := CatEntry(schema.name, h, data, 0);
    var blobs', indexes' := blobs[h := EncodeTable(schema)], indexes[data := ix];
    cat', tag' := cat + [e], tag[h := schema.name];
    OwnsFresh(blobs, indexes, cat, db, tag, schema.name);
    NamesPush(cat, e);
    assert data !in DataHeads(cat);
    PushDistinct(cat, e);
    assert tag'.Values <= TableNames(cat');
    forall d | 0 <= d < |cat'|
      ensures TableHolds(blobs', indexes', Owns(tag', cat'[d].name), cat'[d], (db + [TableState(schema, [])])[d])
    {
      if d < |cat| {
        NameListed(cat, d);
        TableData(blobs, indexes, Owns(tag, cat[d].name), cat[d], db[d]);
        assert Owns(tag', cat[d].name) == Owns(tag, cat[d].name);
        TableFrame(blobs, indexes, Owns(tag, cat[d].name), cat[d], db[d], blobs', indexes');
      } else {
        assert Owns(tag', schema.name) == {h};
        EmptyTable(blobs', indexes', e, schema);
      }
    }
  }

  lemma NamesPush(cat: seq<CatEntry>, e: CatEntry)
    ensures TableNames(cat + [e]) == TableNames(cat) + {e.name} && DataHeads(cat + [e]) == DataHeads(cat) + {e.dataHead}
  {
    var more := cat + [e];
    assert more[|cat|] == e;
    forall d | 0 <= d < |cat|
      ensures cat[d].name in TableNames(more) && cat[d].dataHead in DataHeads(more)
    {
      assert more[d] == cat[d];
    }
  }

  lemma PushDistinct(cat: seq<CatEntry>, e: CatEntry)
    requires DistinctEntries(cat) && e.name !in TableNames(cat) && e.dataHead !in DataHeads(cat)
    ensures DistinctEntries(cat + [e])
  {
  }

  lemma EmptyTable(blobs: Blobs, indexes: Indexes, e: CatEntry, schema: Table)
    requires EncodableTable(schema) && e.name == schema.name && e.rowCount == 0
    requires e.schemaHead in blobs && blobs[e.schemaHead] == EncodeTable(schema)
    requires e.dataHead in indexes && indexes[e.dataHead] != [] && Entries(indexes[e.dataHead]) == []
    ensures TableHolds(blobs, indexes, {e.schemaHead}, e, TableState(schema, []))
  {
    hide EncodableTable, EncodeTable, Entries;
    assert EntryHeads([]) == {};
  }

  /** A table goes with its schema blob, its row blobs and its index. */
  lemma RemoveTable(blobs: Blobs, indexes: Indexes, cat: seq<CatEntry>, db: DB, tag: map<u64, Text>, i: nat)
    returns (tag': map<u64, Text>)
    requires Body(blobs, indexes, cat, db, tag) && i < |cat|
    ensures |db| == |cat| && cat[i].dataHead in indexes
    ensures OwnOf(cat, tag, i) == {cat[i].schemaHead} + EntryHeads(Entries(indexes[cat[i].dataHead]))
    ensures Body(blobs - OwnOf(cat, tag, i), indexes - {cat[i].dataHead}, Without(cat, i), Without(db, i), tag')
  {
    hide EncodableTable, EncodeTable, Entries, TableNames, DataHeads, TableHolds, Without;
    var own := OwnOf(cat, tag, i);
    var blobs', indexes', cat', db' := blobs - own, indexes - {cat[i].dataHead}, Without(cat, i), Without(db, i);
    tag' := tag - own;
    TableOwn(blobs, indexes, own, cat[i], db[i]);
    NamesDrop(cat, i);
    forall h | h in tag'
      ensures tag'[h] in TableNames(cat')
    {
      assert tag[h] in tag.Values;
    }
    forall d | 0 <= d < |cat'|
      ensures TableHolds(blobs', indexes', Owns(tag', cat'[d].name), cat'[d], db'[d])
    {
      var c := if d < i then d else d + 1;
      WithoutAt(cat, i, d);
      WithoutAt(db, i, d);
      assert cat[c].name != cat[i].name && cat[c].dataHead != cat[i].dataHead;
      assert Owns(tag', cat[c].name) == Owns(tag, cat[c].name);
      TableData(blobs, indexes, Owns(tag, cat[c].name), cat[c], db[c]);
      TableFrame(blobs, indexes, Owns(tag, cat[c].name), cat[c], db[c], blobs', indexes');
    }
  }

  lemma TableOwn(blobs: Blobs, indexes: Indexes, own: set<u64>, e: CatEntry, t: TableState)
    requires TableHolds(blobs, indexes, own, e, t)
    ensures e.dataHead in indexes && own == {e.schemaHead} + EntryHeads(Entries(indexes[e.dataHead]))
  {
  }

  lemma WithoutAt<T>(xs: seq<T>, i: nat, d: nat)
    requires i < |xs| && d + 1 < |xs|
    ensures Without(xs, i)[d] == xs[if d < i then d else d + 1]
  {
  }

  lemma NamesDrop(cat: seq<CatEntry>, i: nat)
    requires i < |cat| && DistinctEntries(cat)
    ensures TableNames(Without(cat, i)) == TableNames(cat) - {cat[i].name}
    ensures DataHeads(Without(cat, i)) == DataHeads(cat) - {cat[i].dataHead}
    ensures DistinctEntries(Without(cat, i))
  {
    var left := Without(cat, i);
    assert forall d :: 0 <= d < |left| ==> left[d] == cat[if d < i then d else d + 1];
    forall d | 0 <= d < |cat|
      ensures d != i ==> cat[d].name in TableNames(left) && cat[d].dataHead in DataHeads(left)
    {
      assert d != i ==> left[if d < i then d else d - 1] == cat[d];
    }
  }

  // ---- counters fit ---------------------------------------------------------------------------

  lemma {:induction false} FewBelow(s: set<u64>, n: nat)
    requires forall x :: x in s ==> 0 < x <= n
    ensures |s| <= n
  {
    if n == 0 {
      assert s == {};
    } else {
      var rest := s - {n};
      assert s <= rest + {n};
      FewBelow(rest, n - 1);
    }
  }

  lemma {:induction false} HeadCount(es: seq<(RowId, u64)>)
    requires DistinctHeads(es)
    ensures |EntryHeads(es)| == |es|
  {
    if es == [] {
      assert EntryHeads(es) == {};
    } else {
      var n := |es| - 1;
      HeadCount(es[..n]);
      assert es == es[..n] + [es[n]];
      HeadsPush(es[..n], es[n]);
      assert es[n].1 !in EntryHeads(es[..n]);
    }
  }

  /** A table's rows are fewer than there are page numbers, so its counter never overflows. */
  lemma RowsCounted(blobs: Blobs, indexes: Indexes, cat: seq<CatEntry>, db: DB, tag: map<u64, Text>, i: nat)
    requires Body(blobs, indexes, cat, db, tag) && i < |cat| && 0 !in blobs
    ensures |db| == |cat| && |db[i].rows| + 1 < TWO64
  {
    hide Body, Entries, EncodableTable, EncodeTable, RowsHold, EntryHeads;
    BodyTable(blobs, indexes, cat, db, tag, i);
    var es := Entries(indexes[cat[i].dataHead]);
    RowsLength(blobs, es, db[i].rows);
    HeadCount(es);
    FewBelow(OwnOf(cat, tag, i), 0xFFFF_FFFF_FFFF_FFFF);
  }

  lemma {:induction false} DataCount(cat: seq<CatEntry>)
    requires DistinctEntries(cat)
    ensures |DataHeads(cat)| == |cat|
  {
    if cat == [] {
      assert DataHeads(cat) == {};
    } else {
      var n := |cat| - 1;
      DataCount(cat[..n]);
      assert cat == cat[..n] + [cat[n]];
      NamesPush(cat[..n], cat[n]);
      assert cat[n].dataHead !in DataHeads(cat[..n]);
    }
  }

  /** The catalog of any body can be written. */
  lemma CatFits(blobs: Blobs, indexes: Indexes, cat: seq<CatEntry>, db: DB, tag: map<u64, Text>)
    requires Body(blobs, indexes, cat, db, tag) && 0 !in indexes
    ensures EncodableCat(cat)
  {
    hide Entries, EncodeTable, RowsHold;
    DataCount(cat);
    FewBelow(DataHeads(cat), 0xFFFF_FFFF_FFFF_FFFF);
    forall d | 0 <= d < |cat|
      ensures |cat[d].name| < TWO64
    {
      BodyTable(blobs, indexes, cat, db, tag, d);
    }
  }

  // ---- looking up -------------------------------------------------------------------------------

  /** Position of the first entry of that name. */
  function CatIndex(cat: seq<CatEntry>, name: Text): (r: Option<nat>)
    ensures r.Some? ==> r.value < |cat| && cat[r.value].name == name
    ensures r.None? ==> forall k :: 0 <= k < |cat| ==> cat[k].name != name
  {
    if cat == [] then None
    else if cat[0].name == name then Some(0)
    else
      match CatIndex(cat[1..], name)
      case None => None
      case Some(i) => Some(i + 1)
  }

  lemma {:induction false} SameIndex(cat: seq<CatEntry>, db: DB, name: Text)
    requires |cat| == |db| && forall k :: 0 <= k < |cat| ==> cat[k].name == db[k].schema.name
    ensures CatIndex(cat, name) == FindTable(db, name)
  {
    if cat != [] {
      assert cat[0].name == db[0].schema.name;
      forall k | 0 <= k < |cat| - 1
        ensures cat[1..][k].name == db[1..][k].schema.name
      {
        assert cat[k + 1].name == db[k + 1].schema.name;
      }
      SameIndex(cat[1..], db[1..], name);
    }
  }

  lemma BodyIndex(blobs: Blobs, indexes: Indexes, cat: seq<CatEntry>, db: DB, tag: map<u64, Text>, name: Text)
    requires Body(blobs, indexes, cat, db, tag)
    ensures |cat| == |db| && CatIndex(cat, name) == FindTable(db, name)
  {
    hide Body, CatIndex, FindTable;
    assert |cat| == |db| by { BodyLength(blobs, indexes, cat, db, tag); }
    forall k | 0 <= k < |cat|
      ensures cat[k].name == db[k].schema.name
    {
      BodyTable(blobs, indexes, cat, db, tag, k);
    }
    SameIndex(cat, db, name);
  }

  lemma BodyLength(blobs: Blobs, indexes: Indexes, cat: seq<CatEntry>, db: DB, tag: map<u64, Text>)
    requires Body(blobs, indexes, cat, db, tag)
    ensures |cat| == |db|
  {
  }

  /** A row leads to its bytes. */
  lemma RowBytes(blobs: Blobs, es: seq<(RowId, u64)>, rows: Rows, k: nat)
    requires RowsHold(blobs, es, rows) && k < |es|
    ensures |rows| == |es| && es[k].0 == rows[k].0 && es[k].1 in blobs
    ensures DecodeRow(blobs[es[k].1]) == Success(rows[k].1)
  {
    RowRoundTrip(rows[k].1);
  }
}
