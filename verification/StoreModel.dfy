/** What a page layout must hold to stand for a database. */
module StoreModel {
  import opened Errors
  import opened Bytes
  import opened Bignum
  import opened Codec
  import opened Schema
  import opened ChainModel
  import opened Chains
  import opened ChainStore
  import opened Relational

  // ---- the catalog image ------------------------------------------------------------------

  datatype CatEntry = CatEntry(name: Text, schemaHead: u64, dataHead: u64, rowCount: u64)

  predicate EncodableCat(cat: seq<CatEntry>) {
    |cat| < TWO64 && forall e :: e in cat ==> |e.name| < TWO64
  }

  function PutEntry(e: CatEntry): seq<u8>
    requires |e.name| < TWO64
  {
    PutStr(e.name) + (PutUvarint(e.schemaHead) + (PutUvarint(e.dataHead) + PutUvarint(e.rowCount)))
  }

  function GetEntry(buf: seq<u8>, pos: nat): Read<CatEntry> {
    var name := GetStr(buf, pos);
    if name.Failure? then Failure(name.error) else
    var schema := GetUvarint(buf, name.value.1);
    if schema.Failure? then Failure(schema.error) else
    var data := GetUvarint(buf, schema.value.1);
    if data.Failure? then Failure(data.error) else
    var rows := GetUvarint(buf, data.value.1);
    if rows.Failure? then Failure(rows.error) else
    Success((CatEntry(name.value.0, schema.value.0, data.value.0, rows.value.0), rows.value.1))
  }

  function EncodeCat(cat: seq<CatEntry>): seq<u8>
    requires EncodableCat(cat)
  {
    PutList(cat, PutEntry)
  }

  function DecodeCat(buf: seq<u8>): Result<seq<CatEntry>> {
    match GetList(buf, 0, GetEntry)
    case Failure(e) => Failure(e)
    case Success((cat, _)) => Success(cat)
  }

  lemma EntryRoundTrip(buf: seq<u8>, pos: nat, e: CatEntry)
    requires |e.name| < TWO64 && At(buf, pos, PutEntry(e))
    ensures GetEntry(buf, pos) == Success((e, pos + |PutEntry(e)|))
  {
    hide PutStr, GetStr, PutUvarint, GetUvarint, At;
    var a, b, c, d := PutStr(e.name), PutUvarint(e.schemaHead), PutUvarint(e.dataHead), PutUvarint(e.rowCount);
    AtParts(buf, pos, a, b + (c + d));
    AtParts(buf, pos + |a|, b, c + d);
    AtParts(buf, pos + |a| + |b|, c, d);
    StrRoundTrip(buf, pos, e.name);
    UvarintRoundTrip(buf, pos + |a|, e.schemaHead);
    UvarintRoundTrip(buf, pos + |a| + |b|, e.dataHead);
    UvarintRoundTrip(buf, pos + |a| + |b| + |c|, e.rowCount);
  }

  lemma EntriesUndo(cat: seq<CatEntry>)
    requires EncodableCat(cat)
    ensures Undoes(cat, PutEntry, GetEntry)
  {
    hide PutEntry, GetEntry, At;
    forall e: CatEntry, buf: seq<u8>, pos: nat | e in cat
      ensures PutEntry.requires(e) && (At(buf, pos, PutEntry(e)) ==>
        GetEntry(buf, pos) == Success((e, pos + |PutEntry(e)|)))
    {
      if At(buf, pos, PutEntry(e)) {
        EntryRoundTrip(buf, pos, e);
      }
    }
  }

  /** The catalog reads back as it was stored. */
  lemma CatRoundTrip(cat: seq<CatEntry>)
    requires EncodableCat(cat)
    ensures DecodeCat(EncodeCat(cat)) == Success(cat)
  {
    hide GetEntry, PutEntry, GetList;
    EntriesUndo(cat);
    assert At(EncodeCat(cat), 0, PutList(cat, PutEntry));
    ListRoundTrip(EncodeCat(cat), 0, cat, PutEntry, GetEntry);
  }

  // ---- index slots and rows ------------------------------------------------------------------

  lemma {:induction false} PageEntriesPush(page: u64, slots: seq<u64>, x: u64, from: nat)
    requires x != 0 && from <= |slots|
    ensures PageEntries(page, slots + [x], from) == PageEntries(page, slots, from) + [(RowId(page, |slots|), x)]
    decreases |slots| - from
  {
    if from < |slots| {
      PageEntriesPush(page, slots, x, from + 1);
      assert (slots + [x])[from] == slots[from];
    } else {
      assert PageEntries(page, slots + [x], from + 1) == [];
    }
  }

  lemma EntriesSplit(ix: seq<IndexPage>, k: nat)
    requires k < |ix|
    ensures Entries(ix) == Entries(ix[..k]) + PageEntries(ix[k].page, ix[k].slots, 0) + Entries(ix[k + 1..])
  {
    assert ix == ix[..k] + ix[k..];
    EntriesAppend(ix[..k], ix[k..]);
    assert ix[k..][1..] == ix[k + 1..];
  }

  /** Appending a row adds exactly its entry, at the end. */
  lemma EntriesAppended(ix: seq<IndexPage>, page: u64, x: u64)
    requires ix != [] && x != 0
    ensures Entries(Appended(ix, page, x)) == Entries(ix) + [(AppendedId(ix, page), x)]
  {
    var n := |ix| - 1;
    var more := Appended(ix, page, x);
    if |ix[n].slots| < IDX_CAP {
      EntriesSplit(ix, n);
      EntriesSplit(more, n);
      assert more[..n] == ix[..n] && more[n + 1..] == [] && ix[n + 1..] == [];
      PageEntriesPush(ix[n].page, ix[n].slots, x, 0);
    } else {
      EntriesAppend(ix, [IndexPage(page, [x])]);
      PageEntriesPush(page, [], x, 0);
      assert [] + [x] == [x] && [IndexPage(page, [x])][1..] == [];
    }
  }

  lemma {:induction false} PageEntriesSet(page: u64, slots: seq<u64>, from: nat, s: nat, x: u64) returns (p: nat)
    requires from <= s < |slots| && slots[s] != 0
    ensures var es, es' := PageEntries(page, slots, from), PageEntries(page, slots[s := x], from);
      && p < |es| && es[p] == (RowId(page, s), slots[s])
      && es' == if x != 0 then es[p := (RowId(page, s), x)] else Without(es, p)
    decreases |slots| - from
  {
    hide Without;
    var rest := PageEntries(page, slots, from + 1);
    if from == s {
      p := 0;
      PageEntriesSame(page, slots, slots[s := x], s + 1);
      ConsEdits((RowId(page, s), slots[s]), rest, (RowId(page, s), x));
    } else {
      var q := PageEntriesSet(page, slots, from + 1, s, x);
      if slots[from] != 0 {
        p := q + 1;
        ConsEditsLater((RowId(page, from), slots[from]), rest, q, (RowId(page, s), x));
      } else {
        p := q;
      }
    }
  }

  lemma ConsEdits<T>(h: T, rest: seq<T>, y: T)
    ensures ([h] + rest)[0 := y] == [y] + rest && Without([h] + rest, 0) == rest
  {
  }

  lemma ConsEditsLater<T>(h: T, rest: seq<T>, q: nat, y: T)
    requires q < |rest|
    ensures ([h] + rest)[q + 1 := y] == [h] + rest[q := y] && Without([h] + rest, q + 1) == [h] + Without(rest, q)
  {
  }

  lemma {:induction false} PageEntriesSame(page: u64, a: seq<u64>, b: seq<u64>, from: nat)
    requires |a| == |b| && from <= |a| && forall i :: from <= i < |a| ==> a[i] == b[i]
    ensures PageEntries(page, a, from) == PageEntries(page, b, from)
    decreases |a| - from
  {
    if from < |a| {
      PageEntriesSame(page, a, b, from + 1);
    }
  }

  /** Overwriting a live slot changes exactly its entry; a tombstone takes it out. */
  lemma EntriesSet(ix: seq<IndexPage>, k: nat, id: RowId, x: u64) returns (p: nat)
    requires SlotIn(ix, k, id) && ix[k].slots[id.slot] != 0
    ensures var es := Entries(ix);
      && p < |es| && es[p] == (id, ix[k].slots[id.slot])
      && Entries(WithSlot(ix, k, id, x)) == if x != 0 then es[p := (id, x)] else Without(es, p)
  {
    hide Entries, PageEntries;
    var ix' := WithSlot(ix, k, id, x);
    var q := PageEntriesSet(id.page, ix[k].slots, 0, id.slot, x);
    EntriesSplit(ix, k);
    EntriesSplit(ix', k);
    assert ix'[..k] == ix[..k] && ix'[k + 1..] == ix[k + 1..];
    p := |Entries(ix[..k])| + q;
  }

  lemma {:induction false} PageEntryIsSlot(page: u64, slots: seq<u64>, from: nat, p: nat)
    requires from <= |slots| && p < |PageEntries(page, slots, from)|
    ensures var e := PageEntries(page, slots, from)[p];
      e.0.page == page && e.0.slot < |slots| && e.1 == slots[e.0.slot] && e.1 != 0
    decreases |slots| - from
  {
    if from < |slots| {
      if slots[from] == 0 {
        PageEntryIsSlot(page, slots, from + 1, p);
      } else if p > 0 {
        PageEntryIsSlot(page, slots, from + 1, p - 1);
      }
    }
  }

  /** Every entry stands in a slot of some page. */
  lemma {:induction false} EntryIsSlot(ix: seq<IndexPage>, p: nat) returns (k: nat)
    requires p < |Entries(ix)|
    ensures var e := Entries(ix)[p]; SlotIn(ix, k, e.0) && ix[k].slots[e.0.slot] == e.1 && e.1 != 0
  {
    var here := PageEntries(ix[0].page, ix[0].slots, 0);
    if p < |here| {
      PageEntryIsSlot(ix[0].page, ix[0].slots, 0, p);
      k := 0;
    } else {
      k := EntryIsSlot(ix[1..], p - |here|);
      k := k + 1;
    }
  }

  ghost predicate DistinctIndexPages(ix: seq<IndexPage>) {
    forall i, j :: 0 <= i < j < |ix| ==> ix[i].page != ix[j].page
  }

  /** A slot that is missing or a tombstone is no entry. */
  lemma NoEntry(ix: seq<IndexPage>, k: nat, id: RowId)
    requires DistinctIndexPages(ix) && k < |ix| && ix[k].page == id.page
    requires SlotIn(ix, k, id) ==> ix[k].slots[id.slot] == 0
    ensures forall p :: 0 <= p < |Entries(ix)| ==> Entries(ix)[p].0 != id
  {
    forall p | 0 <= p < |Entries(ix)|
      ensures Entries(ix)[p].0 != id
    {
      var m := EntryIsSlot(ix, p);
    }
  }

  /** The handle of an appended row is new. */
  lemma AppendedIsNew(ix: seq<IndexPage>, page: u64, x: u64)
    requires ix != [] && DistinctIndexPages(Appended(ix, page, x))
    ensures forall p :: 0 <= p < |Entries(ix)| ==> Entries(ix)[p].0 != AppendedId(ix, page)
  {
    var n := |ix| - 1;
    var more := Appended(ix, page, x);
    forall p | 0 <= p < |Entries(ix)|
      ensures Entries(ix)[p].0 != AppendedId(ix, page)
    {
      var m := EntryIsSlot(ix, p);
      assert more[m].page == ix[m].page && more[n].page == ix[n].page;
      if |ix[n].slots| >= IDX_CAP {
        assert more[n + 1].page == page;
      }
    }
  }

  // ---- a database on chains ----------------------------------------------------------------------

  type Blobs = map<u64, seq<u8>>
  type Indexes = map<u64, seq<IndexPage>>

  ghost function EntryHeads(es: seq<(RowId, u64)>): set<u64> {
    set k | 0 <= k < |es| :: es[k].1
  }

  ghost predicate DistinctHeads(es: seq<(RowId, u64)>) {
    forall j, k :: 0 <= j < k < |es| ==> es[j].1 != es[k].1
  }

  /** Entry `k` leads to the encoding of row `k`. */
  ghost predicate RowsHold(blobs: Blobs, es: seq<(RowId, u64)>, rows: Rows) {
    |es| == |rows| && forall k :: 0 <= k < |es| ==>
      && es[k].0 == rows[k].0 && es[k].1 in blobs && StorableRow(rows[k].1)
      && blobs[es[k].1] == EncodeRow(rows[k].1)
  }

  /** The catalog entry leads to the table; `own` are its blobs, none shared. */
  ghost predicate TableHolds(blobs: Blobs, indexes: Indexes, own: set<u64>, e: CatEntry, t: TableState) {
    && e.name == t.schema.name && e.rowCount == |t.rows|
    && EncodableTable(t.schema) && e.schemaHead in blobs && blobs[e.schemaHead] == EncodeTable(t.schema)
    && e.dataHead in indexes && indexes[e.dataHead] != []
    && var es := Entries(indexes[e.dataHead]);
      && RowsHold(blobs, es, t.rows) && DistinctHeads(es)
      && e.schemaHead !in EntryHeads(es) && own == {e.schemaHead} + EntryHeads(es)
  }

  /** The blobs that belong to the table `name`. */
  ghost function Owns(tag: map<u64, Text>, name: Text): set<u64> {
    set h | h in tag && tag[h] == name
  }

  ghost function TableNames(cat: seq<CatEntry>): set<Text> {
    set d | 0 <= d < |cat| :: cat[d].name
  }

  ghost function DataHeads(cat: seq<CatEntry>): set<u64> {
    set d | 0 <= d < |cat| :: cat[d].dataHead
  }

  ghost predicate DistinctEntries(cat: seq<CatEntry>) {
    forall i, j :: 0 <= i < j < |cat| ==> cat[i].name != cat[j].name && cat[i].dataHead != cat[j].dataHead
  }

  /** `tag` says which table each blob belongs to: every blob and every index belongs to exactly one, which uses it. */
  ghost predicate Body(blobs: Blobs, indexes: Indexes, cat: seq<CatEntry>, db: DB, tag: map<u64, Text>) {
    && |cat| == |db| && tag.Keys == blobs.Keys && tag.Values <= TableNames(cat)
    && DistinctEntries(cat) && indexes.Keys == DataHeads(cat)
    && forall d :: 0 <= d < |cat| ==> TableHolds(blobs, indexes, Owns(tag, cat[d].name), cat[d], db[d])
  }

  /** The catalog blob, if there is one, lists the tables. */
  ghost predicate Holds(l: Layout, catHead: u64, cat: seq<CatEntry>, db: DB, tag: map<u64, Text>) {
    && EncodableCat(cat) && Body(l.blobs - {catHead}, l.indexes, cat, db, tag)
    && if catHead == 0 then cat == [] else catHead in l.blobs && l.blobs[catHead] == EncodeCat(cat)
  }

  ghost function Retag(tag: map<u64, Text>, own: set<u64>, own': set<u64>, name: Text): map<u64, Text> {
    map h | h in (tag.Keys - own) + own' :: if h in own' then name else tag[h]
  }

  /** A table needs only its own blobs and its own index. */
  lemma TableFrame(blobs: Blobs, indexes: Indexes, own: set<u64>, e: CatEntry, t: TableState, blobs': Blobs,
                   indexes': Indexes)
    requires TableHolds(blobs, indexes, own, e, t)
    requires forall h :: h in own && h in blobs ==> h in blobs' && blobs'[h] == blobs[h]
    requires e.dataHead in indexes' && indexes'[e.dataHead] == indexes[e.dataHead]
    ensures TableHolds(blobs', indexes', own, e, t)
  {
    hide Entries, EncodeTable, EncodeRow, StorableRow, EncodableTable;
    var es := Entries(indexes[e.dataHead]);
    forall k | 0 <= k < |es|
      ensures es[k].1 in blobs' && blobs'[es[k].1] == blobs[es[k].1]
    {
      assert es[k].1 in EntryHeads(es);
    }
  }

  /** What changed lies within table `i`: its blobs went from `Owns(tag, name)` to `own'`. */
  ghost predicate Local(blobs: Blobs, blobs': Blobs, own: set<u64>, own': set<u64>) {
    && blobs'.Keys == (blobs.Keys - own) + own' && own' !! (blobs.Keys - own)
    && forall h :: h in blobs.Keys - own ==> blobs'[h] == blobs[h]
  }

  /** Replacing one table's blobs and index replaces that table and no other. */
  lemma ReplaceTable(blobs: Blobs, indexes: Indexes, cat: seq<CatEntry>, db: DB, tag: map<u64, Text>, i: nat,
                     blobs': Blobs, indexes': Indexes, own': set<u64>, e': CatEntry, t': TableState)
    requires Body(blobs, indexes, cat, db, tag) && i < |cat|
    requires e'.name == cat[i].name && e'.dataHead == cat[i].dataHead
    requires e'.dataHead in indexes' && indexes' == indexes[e'.dataHead := indexes'[e'.dataHead]]
    requires Local(blobs, blobs', Owns(tag, cat[i].name), own') && TableHolds(blobs', indexes', own', e', t')
    ensures Body(blobs', indexes', cat[i := e'], db[i := t'], Retag(tag, Owns(tag, cat[i].name), own', cat[i].name))
  {
    hide TableHolds, TableNames, DataHeads;
    var own := Owns(tag, cat[i].name);
    var tag', cat', db' := Retag(tag, own, own', cat[i].name), cat[i := e'], db[i := t'];
    assert own <= blobs.Keys;
    NameListed(cat, i);
    SameNamesAndData(cat, i, e');
    forall h | h in tag'
      ensures tag'[h] in TableNames(cat)
    {
      assert h !in own' ==> tag[h] in tag.Values;
    }
    forall d | 0 <= d < |cat'|
      ensures TableHolds(blobs', indexes', Owns(tag', cat'[d].name), cat'[d], db'[d])
    {
      if d == i {
        RetagOwns(tag, own, own', cat[i].name);
      } else {
        assert cat[d].name != cat[i].name && cat[d].dataHead != cat[i].dataHead;
        RetagOthers(tag, own', cat[i].name, cat[d].name);
        TableData(blobs, indexes, Owns(tag, cat[d].name), cat[d], db[d]);
        TableFrame(blobs, indexes, Owns(tag, cat[d].name), cat[d], db[d], blobs', indexes');
      }
    }
  }

  lemma SameNamesAndData(cat: seq<CatEntry>, i: nat, e': CatEntry)
    requires i < |cat| && e'.name == cat[i].name && e'.dataHead == cat[i].dataHead
    ensures TableNames(cat[i := e']) == TableNames(cat) && DataHeads(cat[i := e']) == DataHeads(cat)
    ensures DistinctEntries(cat) ==> DistinctEntries(cat[i := e'])
  {
    var cat' := cat[i := e'];
    NamesWithin(cat, cat');
    NamesWithin(cat', cat);
  }

  lemma NamesWithin(a: seq<CatEntry>, b: seq<CatEntry>)
    requires |a| == |b| && forall d :: 0 <= d < |a| ==> a[d].name == b[d].name && a[d].dataHead == b[d].dataHead
    ensures TableNames(a) <= TableNames(b) && DataHeads(a) <= DataHeads(b)
  {
    forall n | n in TableNames(a)
      ensures n in TableNames(b)
    {
      var d :| 0 <= d < |a| && a[d].name == n;
      assert b[d].name == n;
    }
    forall h | h in DataHeads(a)
      ensures h in DataHeads(b)
    {
      var d :| 0 <= d < |a| && a[d].dataHead == h;
      assert b[d].dataHead == h;
    }
  }

  lemma NameListed(cat: seq<CatEntry>, i: nat)
    requires i < |cat|
    ensures cat[i].name in TableNames(cat) && cat[i].dataHead in DataHeads(cat)
  {
  }

  lemma TableData(blobs: Blobs, indexes: Indexes, own: set<u64>, e: CatEntry, t: TableState)
    requires TableHolds(blobs, indexes, own, e, t)
    ensures e.dataHead in indexes && indexes[e.dataHead] != [] && e.schemaHead in blobs && e.schemaHead in own
  {
  }

  lemma RetagOwns(tag: map<u64, Text>, own: set<u64>, own': set<u64>, name: Text)
    requires own == Owns(tag, name)
    ensures Owns(Retag(tag, own, own', name), name) == own'
  {
  }

  lemma RetagOthers(tag: map<u64, Text>, own': set<u64>, name: Text, other: Text)
    requires other != name && own' !! (tag.Keys - Owns(tag, name))
    ensures Owns(Retag(tag, Owns(tag, name), own', name), other) == Owns(tag, other)
    ensures Owns(tag, other) !! Owns(tag, name)
  {
  }
}
