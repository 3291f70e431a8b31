/** Self-delimiting byte encodings of numbers, texts, cells and rows. */
module Codec {
  import opened Errors
  import opened Bytes
  import opened Bignum
  import opened Value

  const TWO64 := 0x1_0000_0000_0000_0000

  type Cell = Option<Value>
  type Row = seq<Cell>

  /** What a reader returns: the value and the position behind it. */
  type Read<T> = Result<(T, nat)>

  /** `s` stands in `buf` at `pos`. */
  predicate At(buf: seq<u8>, pos: nat, s: seq<u8>) {
    pos + |s| <= |buf| && buf[pos..pos + |s|] == s
  }

  lemma AtParts(buf: seq<u8>, pos: nat, a: seq<u8>, b: seq<u8>)
    requires At(buf, pos, a + b)
    ensures At(buf, pos, a) && At(buf, pos + |a|, b)
  {
    var whole := buf[pos..pos + |a| + |b|];
    assert whole[..|a|] == a && whole[|a|..] == b;
    assert buf[pos..pos + |a|] == whole[..|a|];
    assert buf[pos + |a|..pos + |a| + |b|] == whole[|a|..];
  }

  // ---- varints ------------------------------------------------------------------------

  /** Seven bits to a byte, low bits first, the top bit set on all but the last. */
  function PutUvarint(v: nat): (s: seq<u8>)
    ensures s != []
  {
    if v < 128 then [v] else [v % 128 + 128] + PutUvarint(v / 128)
  }

  /** `acc | bits << shift` in 64 bits, for an `acc` below `1 << shift`. */
  function OrShifted(acc: u64, bits: nat, shift: nat): u64 {
    (acc + bits * Pow2(shift)) % TWO64
  }

  function GetUvarintFrom(buf: seq<u8>, pos: nat, shift: nat, acc: u64): (r: Read<u64>)
    ensures r.Success? ==> pos < r.value.1 <= |buf|
    decreases |buf| - pos
  {
    if pos >= |buf| then Failure(Corrupt("varint eof"))
    else if shift >= 64 then Failure(Corrupt("varint overflow"))
    else
      var sum := OrShifted(acc, buf[pos] % 128, shift);
      if buf[pos] < 128 then Success((sum, pos + 1)) else GetUvarintFrom(buf, pos + 1, shift + 7, sum)
  }

  function GetUvarint(buf: seq<u8>, pos: nat): (r: Read<u64>)
    ensures r.Success? ==> pos < r.value.1 <= |buf|
  {
    GetUvarintFrom(buf, pos, 0, 0)
  }

  lemma OrShiftedSmall(acc: u64, bits: nat, shift: nat)
    requires acc + bits * Pow2(shift) < TWO64
    ensures OrShifted(acc, bits, shift) == acc + bits * Pow2(shift)
  {
  }

  lemma {:induction false} UvarintFrom(buf: seq<u8>, pos: nat, shift: nat, acc: u64, v: nat)
    requires At(buf, pos, PutUvarint(v)) && shift < 64 && acc + v * Pow2(shift) < TWO64
    ensures GetUvarintFrom(buf, pos, shift, acc) == Success((acc + v * Pow2(shift), pos + |PutUvarint(v)|))
    decreases v
  {
    hide OrShifted, Pow2;
    var b := PutUvarint(v)[0];
    assert buf[pos] == buf[pos..pos + |PutUvarint(v)|][0] == b;
    if v < 128 {
      OrShiftedSmall(acc, v, shift);
    } else {
      NextGroup(acc, v, shift);
      OrShiftedSmall(acc, v % 128, shift);
      AtParts(buf, pos, [b], PutUvarint(v / 128));
      UvarintFrom(buf, pos + 1, shift + 7, acc + v % 128 * Pow2(shift), v / 128);
    }
  }

  lemma NextGroup(acc: u64, v: nat, shift: nat)
    requires v >= 128 && shift < 64 && acc + v * Pow2(shift) < TWO64
    ensures acc + v % 128 * Pow2(shift) + v / 128 * Pow2(shift + 7) == acc + v * Pow2(shift)
    ensures acc + v % 128 * Pow2(shift) < TWO64 && shift + 7 < 64
  {
    var p, q := Pow2(shift), v / 128;
    Seven(shift);
    assert v == 128 * q + v % 128;
    Spread(q, v % 128, p);
    AtLeast(q, 128 * p);
    Pow2Values();
    if shift + 7 >= 64 {
      Pow2Mono(57, shift);
    }
  }

  lemma Seven(n: nat)
    ensures Pow2(n + 7) == 128 * Pow2(n)
  {
    assert Pow2(n + 1) == 2 * Pow2(n);
    assert Pow2(n + 3) == 4 * Pow2(n + 1);
    assert Pow2(n + 5) == 4 * Pow2(n + 3);
    assert Pow2(n + 7) == 4 * Pow2(n + 5);
  }

  lemma Spread(q: nat, r: nat, p: nat)
    ensures (128 * q + r) * p == q * (128 * p) + r * p
  {
  }

  lemma Pow2Values()
    ensures Pow2(57) == 0x200_0000_0000_0000
  {
    Seven(0); Seven(7); Seven(14); Seven(21); Seven(28); Seven(35); Seven(42);
    assert Pow2(49) == 0x2_0000_0000_0000;
    Seven(49);
    assert Pow2(57) == 2 * Pow2(56);
  }

  /** A varint reads back as what was written, and the reader stops exactly behind it. */
  lemma UvarintRoundTrip(buf: seq<u8>, pos: nat, v: u64)
    requires At(buf, pos, PutUvarint(v))
    ensures GetUvarint(buf, pos) == Success((v, pos + |PutUvarint(v)|))
  {
    UvarintFrom(buf, pos, 0, 0, v);
  }

  /** The number in the low seven bits of each byte, the first byte the lowest. */
  ghost function Groups(s: seq<u8>): nat {
    if s == [] then 0 else s[0] % 128 + 128 * Groups(s[1..])
  }

  /** LEB128: the groups are the number, every byte but the last has its top bit set, and none is spent on a zero. */
  lemma {:induction false} UvarintMeans(v: nat)
    ensures var s := PutUvarint(v);
      && Groups(s) == v && (forall k :: 0 <= k < |s| ==> (s[k] >= 128 <==> k < |s| - 1))
      && (|s| > 1 ==> s[|s| - 1] != 0)
    decreases v
  {
    if v >= 128 {
      UvarintMeans(v / 128);
      assert PutUvarint(v)[1..] == PutUvarint(v / 128);
    } else {
      assert PutUvarint(v)[1..] == [];
    }
  }

  method PutUvarintLoop(out: seq<u8>, value: u64) returns (r: seq<u8>)
    ensures r == out + PutUvarint(value)
  {
    var v: nat := value;
    r := out;
    while true
      invariant r + PutUvarint(v) == out + PutUvarint(value)
      decreases v
    {
      var b: u8 := v % 128;
      var next := v / 128;
      if next != 0 {
        b := b + 128;
      }
      ghost var was := r;
      r := r + [b];
      if next == 0 {
        break;
      }
      assert was + PutUvarint(v) == r + PutUvarint(next);
      v := next;
    }
  }

  method GetUvarintLoop(buf: seq<u8>, pos: nat) returns (r: Read<u64>)
    ensures r == GetUvarint(buf, pos)
  {
    var result: u64, shift, p := 0, 0, pos;
    while true
      invariant GetUvarint(buf, pos) == GetUvarintFrom(buf, p, shift, result)
      decreases |buf| - p
    {
      if p >= |buf| {
        return Failure(Corrupt("varint eof"));
      }
      if shift >= 64 {
        return Failure(Corrupt("varint overflow"));
      }
      result := OrShifted(result, buf[p] % 128, shift);
      p := p + 1;
      if buf[p - 1] < 128 {
        return Success((result, p));
      }
      shift := shift + 7;
    }
  }

  // ---- texts --------------------------------------------------------------------------

  function PutStr(s: Text): (b: seq<u8>)
    requires |s| < TWO64
    ensures b != []
  {
    PutUvarint(|s|) + s
  }

  function GetStr(buf: seq<u8>, pos: nat): (r: Read<Text>)
    ensures r.Success? ==> pos < r.value.1 <= |buf|
  {
    match GetUvarint(buf, pos)
    case Failure(e) => Failure(e)
    case Success((len, p)) =>
      if p + len > |buf| then Failure(Corrupt("bytes eof")) else Success((buf[p..p + len], p + len))
  }

  lemma StrRoundTrip(buf: seq<u8>, pos: nat, s: Text)
    requires |s| < TWO64 && At(buf, pos, PutStr(s))
    ensures GetStr(buf, pos) == Success((s, pos + |PutStr(s)|))
  {
    AtParts(buf, pos, PutUvarint(|s|), s);
    UvarintRoundTrip(buf, pos, |s|);
  }

  // ---- lists --------------------------------------------------------------------------

  function PutMany<T>(xs: seq<T>, put: T --> seq<u8>): seq<u8>
    requires forall x :: x in xs ==> put.requires(x)
  {
    if xs == [] then [] else put(xs[0]) + PutMany(xs[1..], put)
  }

  function GetMany<T>(buf: seq<u8>, pos: nat, n: nat, get: (seq<u8>, nat) -> Read<T>): (r: Read<seq<T>>)
    ensures r.Success? ==> |r.value.0| == n
    decreases n
  {
    if n == 0 then Success(([], pos))
    else
      match get(buf, pos)
      case Failure(e) => Failure(e)
      case Success((x, p)) =>
        match GetMany(buf, p, n - 1, get)
        case Failure(e) => Failure(e)
        case Success((xs, q)) => Success(([x] + xs, q))
  }

  /** `get` undoes `put` for the elements of `xs`, wherever they stand. */
  ghost predicate Undoes<T(!new)>(xs: seq<T>, put: T --> seq<u8>, get: (seq<u8>, nat) -> Read<T>) {
    forall x: T, buf: seq<u8>, pos: nat :: x in xs ==>
      put.requires(x) && (At(buf, pos, put(x)) ==> get(buf, pos) == Success((x, pos + |put(x)|)))
  }

  lemma {:induction false} ManyRoundTrip<T(!new)>(
    buf: seq<u8>, pos: nat, xs: seq<T>, put: T --> seq<u8>, get: (seq<u8>, nat) -> Read<T>)
    requires Undoes(xs, put, get) && (forall x :: x in xs ==> put.requires(x)) && At(buf, pos, PutMany(xs, put))
    decreases |xs|
    ensures GetMany(buf, pos, |xs|, get) == Success((xs, pos + |PutMany(xs, put)|))
  {
    hide At;
    if xs != [] {
      AtParts(buf, pos, put(xs[0]), PutMany(xs[1..], put));
      assert xs[0] in xs;
      assert forall x :: x in xs[1..] ==> x in xs;
      ManyRoundTrip(buf, pos + |put(xs[0])|, xs[1..], put, get);
      assert [xs[0]] + xs[1..] == xs;
    }
  }

  lemma {:induction false} PutManyAppend<T>(xs: seq<T>, x: T, put: T --> seq<u8>)
    requires (forall y :: y in xs ==> put.requires(y)) && put.requires(x)
    ensures forall y :: y in xs + [x] ==> put.requires(y)
    ensures PutMany(xs + [x], put) == PutMany(xs, put) + put(x)
  {
    if xs == [] {
      assert [x][1..] == [] && [] + [x] == [x];
      assert PutMany([x], put) == put(x) + [];
    } else {
      assert (xs + [x])[1..] == xs[1..] + [x];
      PutManyAppend(xs[1..], x, put);
    }
  }

  // ---- cells and rows -------------------------------------------------------------------

  predicate Storable(c: Cell) {
    c.Some? ==> c.value.Canonical() && |ValueText(c.value)| < TWO64
  }

  predicate StorableRow(r: Row) {
    |r| < TWO64 && forall c :: c in r ==> Storable(c)
  }

  /** NULL is a zero byte; a value is a one, its type's tag and its text. */
  function PutCell(c: Cell): (s: seq<u8>)
    requires Storable(c)
  {
    if c.None? then [0] else [1, Tag(c.value.TypeOf())] + PutStr(ValueText(c.value))
  }

  function GetCell(buf: seq<u8>, pos: nat): (r: Read<Cell>)
    ensures r.Success? ==> pos < r.value.1 <= |buf|
  {
    if pos >= |buf| then Failure(Corrupt("cell eof"))
    else if buf[pos] == 0 then Success((None, pos + 1))
    else if pos + 1 >= |buf| then Failure(Corrupt("cell tag eof"))
    else if FromTag(buf[pos + 1]).None? then Failure(Corrupt("bad type tag"))
    else
      match GetStr(buf, pos + 2)
      case Failure(e) => Failure(e)
      case Success((s, p)) =>
        var v := ParseValue(FromTag(buf[pos + 1]).value, s);
        if v.None? then Failure(Corrupt("undecodable value")) else Success((Some(v.value), p))
  }

  lemma CellRoundTrip(buf: seq<u8>, pos: nat, c: Cell)
    requires Storable(c) && At(buf, pos, PutCell(c))
    ensures GetCell(buf, pos) == Success((c, pos + |PutCell(c)|))
  {
    hide ParseValue, ValueText, FromTag;
    assert buf[pos] == buf[pos..pos + |PutCell(c)|][0] == PutCell(c)[0];
    if c.Some? {
      var v := c.value;
      var head := [1, Tag(v.TypeOf())];
      AtParts(buf, pos, head, PutStr(ValueText(v)));
      assert buf[pos + 1] == buf[pos..pos + 2][1] == Tag(v.TypeOf());
      StrRoundTrip(buf, pos + 2, ValueText(v));
      ValueRoundTrip(v);
    }
  }

  function EncodeRow(r: Row): seq<u8>
    requires StorableRow(r)
  {
    PutUvarint(|r|) + PutMany(r, PutCell)
  }

  function DecodeRow(buf: seq<u8>): Result<Row> {
    match GetUvarint(buf, 0)
    case Failure(e) => Failure(e)
    case Success((n, p)) =>
      match GetMany(buf, p, n, GetCell)
      case Failure(e) => Failure(e)
      case Success((cells, _)) => Success(cells)
  }

  lemma CellUndo(c: Cell, buf: seq<u8>, pos: nat)
    requires Storable(c)
    ensures PutCell.requires(c) && (At(buf, pos, PutCell(c)) ==> GetCell(buf, pos) == Success((c, pos + |PutCell(c)|)))
  {
    hide GetCell, PutCell;
    if At(buf, pos, PutCell(c)) {
      CellRoundTrip(buf, pos, c);
    }
  }

  lemma CellsUndo(r: Row)
    requires StorableRow(r)
    ensures Undoes(r, PutCell, GetCell)
  {
    hide GetCell, PutCell, Storable, At;
    forall c: Cell, buf: seq<u8>, pos: nat | c in r
      ensures PutCell.requires(c) && (At(buf, pos, PutCell(c)) ==>
        GetCell(buf, pos) == Success((c, pos + |PutCell(c)|)))
    {
      CellUndo(c, buf, pos);
    }
  }

  /** A row of canonical values decodes to itself. */
  lemma RowRoundTrip(r: Row)
    requires StorableRow(r)
    ensures DecodeRow(EncodeRow(r)) == Success(r)
  {
    hide GetCell, PutCell, PutUvarint, GetUvarintFrom;
    var buf := EncodeRow(r);
    assert At(buf, 0, PutUvarint(|r|) + PutMany(r, PutCell));
    AtParts(buf, 0, PutUvarint(|r|), PutMany(r, PutCell));
    UvarintRoundTrip(buf, 0, |r|);
    CellsUndo(r);
    ManyRoundTrip(buf, |PutUvarint(|r|)|, r, PutCell, GetCell);
  }

  method EncodeRowLoop(r: Row) returns (out: seq<u8>)
    requires StorableRow(r)
    ensures out == EncodeRow(r)
  {
    hide PutCell, Storable, PutUvarint;
    out := PutUvarintLoop([], |r|);
    for i := 0 to |r|
      invariant forall c :: c in r[..i] ==> Storable(c)
      invariant out == PutUvarint(|r|) + PutMany(r[..i], PutCell)
    {
      PutManyAppend(r[..i], r[i], PutCell);
      assert r[..i + 1] == r[..i] + [r[i]];
      out := out + PutCell(r[i]);
    }
    assert r[..|r|] == r;
  }

  method DecodeRowLoop(buf: seq<u8>) returns (r: Result<Row>)
    ensures r == DecodeRow(buf)
  {
    hide GetCell, GetUvarintFrom;
    var count := GetUvarintLoop(buf, 0);
    if count.Failure? {
      return Failure(count.error);
    }
    var n, pos, cells := count.value.0, count.value.1, [];
    ghost var start := pos;
    ghost var all := GetMany(buf, start, n, GetCell);
    assert all.Success? ==> [] + all.value.0 == all.value.0;
    for i := 0 to n
      invariant GetMany(buf, start, n, GetCell) == Prepend(cells, GetMany(buf, pos, n - i, GetCell))
    {
      var c := GetCell(buf, pos);
      if c.Failure? {
        return Failure(c.error);
      }
      PrependStep(cells, c.value.0, GetMany(buf, c.value.1, n - i - 1, GetCell));
      cells, pos := cells + [c.value.0], c.value.1;
    }
    assert cells + [] == cells;
    return Success(cells);
  }

  lemma PrependStep<T>(xs: seq<T>, x: T, rest: Read<seq<T>>)
    ensures Prepend(xs, match rest case Failure(e) => Failure(e) case Success((ys, p)) => Success(([x] + ys, p)))
      == Prepend(xs + [x], rest)
  {
    if rest.Success? {
      assert xs + ([x] + rest.value.0) == xs + [x] + rest.value.0;
    }
  }

  ghost function Prepend<T>(xs: seq<T>, r: Read<seq<T>>): Read<seq<T>> {
    match r
    case Failure(e) => Failure(e)
    case Success((ys, p)) => Success((xs + ys, p))
  }
}
