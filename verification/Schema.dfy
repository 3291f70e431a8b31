/** Tables, columns and foreign keys, and the schema image. */
module Schema {
  import opened Errors
  import opened Bytes
  import opened Bignum
  import opened Value
  import opened Codec

  datatype Column = Column(name: Text, ty: Type, nullable: bool, unique: bool, displayWidth: Option<u16>)

  datatype ForeignKey = ForeignKey(name: Text, fromCol: Text, toTable: Text, toCol: Text)

  datatype Table = Table(name: Text, columns: seq<Column>, fks: seq<ForeignKey>, refCols: seq<Text>)

  /** The first column of that name. */
  function ColumnIndex(cols: seq<Column>, name: Text): (r: Option<nat>)
    ensures r.Some? ==> r.value < |cols| && cols[r.value].name == name
    ensures r.Some? ==> forall k :: 0 <= k < r.value ==> cols[k].name != name
    ensures r.None? ==> forall k :: 0 <= k < |cols| ==> cols[k].name != name
  {
    if cols == [] then None
    else if cols[0].name == name then Some(0)
    else
      match ColumnIndex(cols[1..], name)
      case None => None
      case Some(i) => Some(i + 1)
  }

  // ---- the label columns --------------------------------------------------------------

  /** The configured columns that still exist; else the UNIQUE ones; else the first. */
  function RefColIndices(t: Table): seq<nat> {
    var mapped := Mapped(t.columns, t.refCols);
    var uniq := Uniques(t.columns, 0);
    if mapped != [] then mapped
    else if uniq != [] then uniq
    else if t.columns == [] then []
    else [0]
  }

  function Mapped(cols: seq<Column>, names: seq<Text>): seq<nat> {
    if names == [] then []
    else
      var rest := Mapped(cols, names[1..]);
      match ColumnIndex(cols, names[0])
      case None => rest
      case Some(i) => [i] + rest
  }

  function Uniques(cols: seq<Column>, from: nat): seq<nat>
    requires from <= |cols|
    decreases |cols| - from
  {
    if from == |cols| then []
    else if cols[from].unique then [from] + Uniques(cols, from + 1)
    else Uniques(cols, from + 1)
  }

  lemma {:induction false} MappedInRange(cols: seq<Column>, names: seq<Text>)
    ensures forall i :: i in Mapped(cols, names) ==> i < |cols|
  {
    if names != [] {
      MappedInRange(cols, names[1..]);
    }
  }

  lemma {:induction false} UniquesInRange(cols: seq<Column>, from: nat)
    requires from <= |cols|
    ensures forall i :: i in Uniques(cols, from) <==> from <= i < |cols| && cols[i].unique
    decreases |cols| - from
  {
    if from < |cols| {
      UniquesInRange(cols, from + 1);
    }
  }

  /** Every label column exists, and a table with columns has a label. */
  lemma LabelColumnsExist(t: Table)
    ensures forall i :: i in RefColIndices(t) ==> i < |t.columns|
    ensures t.columns != [] ==> RefColIndices(t) != []
  {
    MappedInRange(t.columns, t.refCols);
    UniquesInRange(t.columns, 0);
  }

  /** The columns named, in that order, if any of them exists; else the UNIQUE ones in column order; else the first. */
  lemma LabelColumnsMean(t: Table)
    ensures var r := RefColIndices(t);
      if exists n :: n in t.refCols && ColumnIndex(t.columns, n).Some? then
        && (forall i :: i in r <==> NamesColumn(t.columns, t.refCols, i))
        && ((forall n :: n in t.refCols ==> ColumnIndex(t.columns, n).Some?) ==>
              |r| == |t.refCols| && forall k :: 0 <= k < |r| ==> ColumnIndex(t.columns, t.refCols[k]) == Some(r[k]))
      else if exists i :: 0 <= i < |t.columns| && t.columns[i].unique then
        && (forall i :: i in r <==> 0 <= i < |t.columns| && t.columns[i].unique)
        && forall j, k :: 0 <= j < k < |r| ==> r[j] < r[k]
      else r == if t.columns == [] then [] else [0]
  {
    hide ColumnIndex;
    MappedMeans(t.columns, t.refCols);
    UniquesInRange(t.columns, 0);
    UniquesAscend(t.columns, 0);
  }

  /** One of the names is column `i`'s. */
  ghost predicate NamesColumn(cols: seq<Column>, names: seq<Text>, i: nat) {
    exists n :: n in names && ColumnIndex(cols, n) == Some(i)
  }

  lemma {:induction false} MappedMeans(cols: seq<Column>, names: seq<Text>)
    ensures forall i :: i in Mapped(cols, names) <==> NamesColumn(cols, names, i)
    ensures Mapped(cols, names) == [] <==> forall n :: n in names ==> ColumnIndex(cols, n).None?
    ensures (forall n :: n in names ==> ColumnIndex(cols, n).Some?) ==>
      && |Mapped(cols, names)| == |names|
      && forall k :: 0 <= k < |names| ==> ColumnIndex(cols, names[k]) == Some(Mapped(cols, names)[k])
  {
    hide ColumnIndex;
    if names != [] {
      MappedMeans(cols, names[1..]);
      assert names == [names[0]] + names[1..];
      forall i: nat
        ensures NamesColumn(cols, names, i) <==>
          ColumnIndex(cols, names[0]) == Some(i) || NamesColumn(cols, names[1..], i)
      {
      }
    }
  }

  lemma {:induction false} UniquesAscend(cols: seq<Column>, from: nat)
    requires from <= |cols|
    ensures forall j, k :: 0 <= j < k < |Uniques(cols, from)| ==> Uniques(cols, from)[j] < Uniques(cols, from)[k]
    ensures Uniques(cols, from) == [] <==> forall i :: from <= i < |cols| ==> !cols[i].unique
    decreases |cols| - from
  {
    if from < |cols| {
      UniquesAscend(cols, from + 1);
      UniquesInRange(cols, from + 1);
      var rest := Uniques(cols, from + 1);
      assert forall k :: 0 <= k < |rest| ==> rest[k] in rest;
    }
  }

  // ---- the image ------------------------------------------------------------------------

  /** Sizes fit the image's counters. */
  predicate EncodableTable(t: Table) {
    && |t.name| < TWO64 && |t.columns| < TWO64 && |t.fks| < TWO64 && |t.refCols| < TWO64
    && (forall c :: c in t.columns ==> |c.name| < TWO64)
    && (forall f :: f in t.fks ==> EncodableFk(f))
    && (forall n :: n in t.refCols ==> |n| < TWO64)
  }

  predicate EncodableFk(f: ForeignKey) {
    |f.name| < TWO64 && |f.fromCol| < TWO64 && |f.toTable| < TWO64 && |f.toCol| < TWO64
  }

  function Flag(b: bool): u8 { if b then 1 else 0 }

  function PutColumn(c: Column): seq<u8>
    requires |c.name| < TWO64
  {
    PutStr(c.name) + [Tag(c.ty), Flag(c.nullable), Flag(c.unique)]
  }

  /** A column without its width, which is stored apart. */
  function GetColumn(buf: seq<u8>, pos: nat): Read<Column> {
    match GetStr(buf, pos)
    case Failure(e) => Failure(e)
    case Success((name, p)) =>
      if p >= |buf| then Failure(Corrupt("schema eof"))
      else if FromTag(buf[p]).None? then Failure(Corrupt("schema type"))
      else if p + 2 >= |buf| then Failure(Corrupt("schema eof"))
      else Success((Column(name, FromTag(buf[p]).value, buf[p + 1] != 0, buf[p + 2] != 0, None), p + 3))
  }

  function PutFk(f: ForeignKey): seq<u8>
    requires EncodableFk(f)
  {
    PutStr(f.name) + (PutStr(f.fromCol) + (PutStr(f.toTable) + PutStr(f.toCol)))
  }

  function GetFk(buf: seq<u8>, pos: nat): Read<ForeignKey> {
    var a := GetStr(buf, pos);
    if a.Failure? then Failure(a.error) else
    var b := GetStr(buf, a.value.1);
    if b.Failure? then Failure(b.error) else
    var c := GetStr(buf, b.value.1);
    if c.Failure? then Failure(c.error) else
    var d := GetStr(buf, c.value.1);
    if d.Failure? then Failure(d.error) else
    Success((ForeignKey(a.value.0, b.value.0, c.value.0, d.value.0), d.value.1))
  }

  function PutName(n: Text): seq<u8>
    requires |n| < TWO64
  {
    PutStr(n)
  }

  /** `(column index, width)` for the columns that have one. */
  function WidthsFrom(cols: seq<Column>, from: nat): (ws: seq<(u64, u16)>)
    requires from <= |cols| < TWO64
    decreases |cols| - from
  {
    if from == |cols| then []
    else if cols[from].displayWidth.Some? then [(from, cols[from].displayWidth.value)] + WidthsFrom(cols, from + 1)
    else WidthsFrom(cols, from + 1)
  }

  function PutWidth(w: (u64, u16)): seq<u8> {
    PutUvarint(w.0) + PutUvarint(w.1)
  }

  function GetWidth(buf: seq<u8>, pos: nat): Read<(u64, u16)> {
    var a := GetUvarint(buf, pos);
    if a.Failure? then Failure(a.error) else
    var b := GetUvarint(buf, a.value.1);
    if b.Failure? then Failure(b.error) else
    Success(((a.value.0, b.value.0 % 0x1_0000), b.value.1))
  }

  /** Widths put back on the columns they name; a stray index is ignored. */
  function ApplyWidths(cols: seq<Column>, ws: seq<(u64, u16)>): (r: seq<Column>)
    ensures |r| == |cols|
    decreases |ws|
  {
    if ws == [] then cols
    else
      var (i, w) := ws[0];
      ApplyWidths(if i < |cols| then cols[i := cols[i].(displayWidth := Some(w))] else cols, ws[1..])
  }

  function PutList<T>(xs: seq<T>, put: T --> seq<u8>): seq<u8>
    requires forall x :: x in xs ==> put.requires(x)
  {
    PutUvarint(|xs|) + PutMany(xs, put)
  }

  function GetList<T>(buf: seq<u8>, pos: nat, get: (seq<u8>, nat) -> Read<T>): Read<seq<T>> {
    var n := GetUvarint(buf, pos);
    if n.Failure? then Failure(n.error) else GetMany(buf, n.value.1, n.value.0, get)
  }

  /** A list that is only there if the image goes on. */
  function GetOptional<T>(buf: seq<u8>, pos: nat, get: (seq<u8>, nat) -> Read<T>): Read<seq<T>> {
    if pos < |buf| then GetList(buf, pos, get) else Success(([], pos))
  }

  function HeadBytes(t: Table): seq<u8>
    requires EncodableTable(t)
  {
    PutStr(t.name) + (PutList(t.columns, PutColumn) + PutList(t.fks, PutFk))
  }

  function EncodeTable(t: Table): seq<u8>
    requires EncodableTable(t)
  {
    HeadBytes(t) + (PutList(t.refCols, PutName) + PutList(WidthsFrom(t.columns, 0), PutWidth))
  }

  function DecodeTable(buf: seq<u8>): Result<Table> {
    var name := GetStr(buf, 0);
    if name.Failure? then Failure(name.error) else
    var cols := GetList(buf, name.value.1, GetColumn);
    if cols.Failure? then Failure(cols.error) else
    var fks := GetList(buf, cols.value.1, GetFk);
    if fks.Failure? then Failure(fks.error) else
    DecodeTail(buf, name.value.0, cols.value.0, fks.value.0, fks.value.1)
  }

  function DecodeTail(buf: seq<u8>, name: Text, cols: seq<Column>, fks: seq<ForeignKey>, pos: nat): Result<Table> {
    var refs := GetOptional(buf, pos, GetStr);
    if refs.Failure? then Failure(refs.error) else
    var widths := GetOptional(buf, refs.value.1, GetWidth);
    if widths.Failure? then Failure(widths.error) else
    Success(Table(name, ApplyWidths(cols, widths.value.0), fks, refs.value.0))
  }

  // ---- each part reads back -----------------------------------------------------------------

  function NoWidth(c: Column): Column {
    c.(displayWidth := None)
  }

  function NoWidths(cols: seq<Column>): (r: seq<Column>)
    ensures |r| == |cols|
  {
    seq(|cols|, i requires 0 <= i < |cols| => NoWidth(cols[i]))
  }

  lemma ColumnRoundTrip(buf: seq<u8>, pos: nat, c: Column)
    requires |c.name| < TWO64 && At(buf, pos, PutColumn(c))
    ensures GetColumn(buf, pos) == Success((NoWidth(c), pos + |PutColumn(c)|))
  {
    hide FromTag, PutStr, GetStr;
    var flags := [Tag(c.ty), Flag(c.nullable), Flag(c.unique)];
    AtParts(buf, pos, PutStr(c.name), flags);
    StrRoundTrip(buf, pos, c.name);
    var p := pos + |PutStr(c.name)|;
    assert buf[p] == buf[p..p + 3][0] == flags[0];
    assert buf[p + 1] == buf[p..p + 3][1] == flags[1];
    assert buf[p + 2] == buf[p..p + 3][2] == flags[2];
  }

  lemma FkRoundTrip(buf: seq<u8>, pos: nat, f: ForeignKey)
    requires EncodableFk(f) && At(buf, pos, PutFk(f))
    ensures GetFk(buf, pos) == Success((f, pos + |PutFk(f)|))
  {
    hide PutStr, GetStr, At;
    var a, b, c, d := PutStr(f.name), PutStr(f.fromCol), PutStr(f.toTable), PutStr(f.toCol);
    AtParts(buf, pos, a, b + (c + d));
    AtParts(buf, pos + |a|, b, c + d);
    AtParts(buf, pos + |a| + |b|, c, d);
    StrRoundTrip(buf, pos, f.name);
    StrRoundTrip(buf, pos + |a|, f.fromCol);
    StrRoundTrip(buf, pos + |a| + |b|, f.toTable);
    StrRoundTrip(buf, pos + |a| + |b| + |c|, f.toCol);
  }

  lemma WidthRoundTrip(buf: seq<u8>, pos: nat, w: (u64, u16))
    requires At(buf, pos, PutWidth(w))
    ensures GetWidth(buf, pos) == Success((w, pos + |PutWidth(w)|))
  {
    hide PutUvarint, At;
    AtParts(buf, pos, PutUvarint(w.0), PutUvarint(w.1));
    UvarintRoundTrip(buf, pos, w.0);
    UvarintRoundTrip(buf, pos + |PutUvarint(w.0)|, w.1);
  }

  lemma ListRoundTrip<T(!new)>(
    buf: seq<u8>, pos: nat, xs: seq<T>, put: T --> seq<u8>, get: (seq<u8>, nat) -> Read<T>)
    requires |xs| < TWO64 && (forall x :: x in xs ==> put.requires(x)) && Undoes(xs, put, get)
    requires At(buf, pos, PutList(xs, put))
    ensures GetList(buf, pos, get) == Success((xs, pos + |PutList(xs, put)|))
    ensures pos < |buf|
  {
    hide PutUvarint, GetMany, PutMany, Undoes, GetUvarint;
    AtParts(buf, pos, PutUvarint(|xs|), PutMany(xs, put));
    UvarintRoundTrip(buf, pos, |xs|);
    ManyRoundTrip(buf, pos + |PutUvarint(|xs|)|, xs, put, get);
  }

  lemma FksUndo(fks: seq<ForeignKey>)
    requires forall f :: f in fks ==> EncodableFk(f)
    ensures Undoes(fks, PutFk, GetFk)
  {
    hide PutFk, GetFk, EncodableFk, At;
    forall f: ForeignKey, buf: seq<u8>, pos: nat | f in fks
      ensures PutFk.requires(f) && (At(buf, pos, PutFk(f)) ==> GetFk(buf, pos) == Success((f, pos + |PutFk(f)|)))
    {
      if At(buf, pos, PutFk(f)) {
        FkRoundTrip(buf, pos, f);
      }
    }
  }

  lemma NamesUndo(names: seq<Text>)
    requires forall n :: n in names ==> |n| < TWO64
    ensures Undoes(names, PutName, GetStr)
  {
    hide PutStr, GetStr, At;
    forall n: Text, buf: seq<u8>, pos: nat | n in names
      ensures PutName.requires(n) && (At(buf, pos, PutName(n)) ==> GetStr(buf, pos) == Success((n, pos + |PutName(n)|)))
    {
      if At(buf, pos, PutName(n)) {
        StrRoundTrip(buf, pos, n);
      }
    }
  }

  lemma WidthsUndo(ws: seq<(u64, u16)>)
    ensures Undoes(ws, PutWidth, GetWidth)
  {
    hide PutWidth, GetWidth, At;
    forall w: (u64, u16), buf: seq<u8>, pos: nat | w in ws
      ensures PutWidth.requires(w) && (At(buf, pos, PutWidth(w)) ==>
        GetWidth(buf, pos) == Success((w, pos + |PutWidth(w)|)))
    {
      if At(buf, pos, PutWidth(w)) {
        WidthRoundTrip(buf, pos, w);
      }
    }
  }

  lemma {:induction false} ColumnsRoundTrip(buf: seq<u8>, pos: nat, cols: seq<Column>)
    requires forall c :: c in cols ==> |c.name| < TWO64
    requires At(buf, pos, PutMany(cols, PutColumn))
    ensures GetMany(buf, pos, |cols|, GetColumn) == Success((NoWidths(cols), pos + |PutMany(cols, PutColumn)|))
    decreases |cols|
  {
    hide PutColumn, GetColumn, At;
    if cols != [] {
      AtParts(buf, pos, PutColumn(cols[0]), PutMany(cols[1..], PutColumn));
      ColumnRoundTrip(buf, pos, cols[0]);
      ColumnsRoundTrip(buf, pos + |PutColumn(cols[0])|, cols[1..]);
      assert [NoWidth(cols[0])] + NoWidths(cols[1..]) == NoWidths(cols);
    }
  }

  /** The columns with the widths of the first `n` put back. */
  ghost function WidthsBack(cols: seq<Column>, n: nat): (r: seq<Column>)
    ensures |r| == |cols|
  {
    seq(|cols|, i requires 0 <= i < |cols| => if i < n then cols[i] else NoWidth(cols[i]))
  }

  lemma {:induction false} WidthsRestored(cols: seq<Column>, from: nat)
    requires from <= |cols| < TWO64
    ensures ApplyWidths(WidthsBack(cols, from), WidthsFrom(cols, from)) == cols
    decreases |cols| - from
  {
    var now := WidthsBack(cols, from);
    if from == |cols| {
      assert now == cols;
    } else {
      WidthsRestored(cols, from + 1);
      if cols[from].displayWidth.Some? {
        var w := cols[from].displayWidth.value;
        assert WidthsBack(cols, from + 1) == now[from := now[from].(displayWidth := Some(w))];
        assert WidthsFrom(cols, from)[1..] == WidthsFrom(cols, from + 1);
      } else {
        assert WidthsBack(cols, from + 1) == now;
      }
    }
  }

  lemma {:induction false} WidthCount(cols: seq<Column>, from: nat)
    requires from <= |cols| < TWO64
    ensures |WidthsFrom(cols, from)| <= |cols| - from
    decreases |cols| - from
  {
    if from < |cols| {
      WidthCount(cols, from + 1);
    }
  }

  /** The name, columns and keys of any image that starts as `t`'s does. */
  lemma HeadRoundTrip(buf: seq<u8>, t: Table)
    requires EncodableTable(t) && At(buf, 0, HeadBytes(t))
    ensures DecodeTable(buf) == DecodeTail(buf, t.name, NoWidths(t.columns), t.fks, |HeadBytes(t)|)
  {
    hide PutStr, GetStr, PutUvarint, GetUvarint, GetFk, PutFk, GetColumn, PutColumn, DecodeTail, At;
    var a, b, c := PutStr(t.name), PutList(t.columns, PutColumn), PutList(t.fks, PutFk);
    AtParts(buf, 0, a, b + c);
    AtParts(buf, |a|, b, c);
    AtParts(buf, |a|, PutUvarint(|t.columns|), PutMany(t.columns, PutColumn));
    StrRoundTrip(buf, 0, t.name);
    UvarintRoundTrip(buf, |a|, |t.columns|);
    ColumnsRoundTrip(buf, |a| + |PutUvarint(|t.columns|)|, t.columns);
    FksUndo(t.fks);
    ListRoundTrip(buf, |a| + |b|, t.fks, PutFk, GetFk);
  }

  lemma RefsRoundTrip(buf: seq<u8>, pos: nat, names: seq<Text>)
    requires |names| < TWO64 && (forall n :: n in names ==> |n| < TWO64)
    requires At(buf, pos, PutList(names, PutName))
    ensures GetOptional(buf, pos, GetStr) == Success((names, pos + |PutList(names, PutName)|))
  {
    hide GetStr, PutName, GetList;
    NamesUndo(names);
    ListRoundTrip(buf, pos, names, PutName, GetStr);
  }

  /** Every schema decodes to itself. */
  lemma TableRoundTrip(t: Table)
    requires EncodableTable(t)
    ensures DecodeTable(EncodeTable(t)) == Success(t)
  {
    hide DecodeTable, HeadBytes, GetStr, GetWidth, GetList, PutName, PutWidth, ApplyWidths;
    var buf, head := EncodeTable(t), HeadBytes(t);
    var refs, widths := PutList(t.refCols, PutName), PutList(WidthsFrom(t.columns, 0), PutWidth);
    assert At(buf, 0, head + (refs + widths));
    AtParts(buf, 0, head, refs + widths);
    AtParts(buf, |head|, refs, widths);
    HeadRoundTrip(buf, t);
    RefsRoundTrip(buf, |head|, t.refCols);
    WidthCount(t.columns, 0);
    WidthsUndo(WidthsFrom(t.columns, 0));
    ListRoundTrip(buf, |head| + |refs|, WidthsFrom(t.columns, 0), PutWidth, GetWidth);
    assert NoWidths(t.columns) == WidthsBack(t.columns, 0);
    WidthsRestored(t.columns, 0);
  }

  /** An image that ends after the foreign keys has no label columns and no widths. */
  lemma OldImage(t: Table)
    requires EncodableTable(t)
    ensures DecodeTable(HeadBytes(t)) == Success(t.(columns := NoWidths(t.columns), refCols := []))
  {
    hide DecodeTable, HeadBytes, GetStr, GetWidth, GetList;
    assert At(HeadBytes(t), 0, HeadBytes(t));
    HeadRoundTrip(HeadBytes(t), t);
  }

  /** An image that ends after the label columns has no widths. */
  lemma WidthlessImage(t: Table)
    requires EncodableTable(t)
    ensures DecodeTable(HeadBytes(t) + PutList(t.refCols, PutName)) == Success(t.(columns := NoWidths(t.columns)))
  {
    hide DecodeTable, HeadBytes, GetStr, GetWidth, GetList, PutName;
    var head, refs := HeadBytes(t), PutList(t.refCols, PutName);
    assert At(head + refs, 0, head + refs);
    AtParts(head + refs, 0, head, refs);
    HeadRoundTrip(head + refs, t);
    RefsRoundTrip(head + refs, |head|, t.refCols);
  }
}
