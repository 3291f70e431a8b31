/** Reversing the scanline filters (section 9 of the PNG specification, ISO/IEC 15948). */
module Unfilter {
  import opened Errors
  import opened Bytes

  function Abs(x: int): nat {
    if x < 0 then -x else x
  }

  /** The neighbour closest to `a + b - c`. */
  function Paeth(a: u8, b: u8, c: u8): u8 {
    var p: int := a as int + b as int - c as int;
    if Abs(p - a) <= Abs(p - b) && Abs(p - a) <= Abs(p - c) then a
    else if Abs(p - b) <= Abs(p - c) then b
    else c
  }

  /** Of the three neighbours `r` is a nearest one to `a + b - c`, and of equally near ones the first of left, above,
      above left. */
  predicate Nearest(a: u8, b: u8, c: u8, r: u8) {
    var p := a as int + b as int - c as int;
    && r in [a, b, c]
    && Abs(p - r) <= Abs(p - a) && Abs(p - r) <= Abs(p - b) && Abs(p - r) <= Abs(p - c)
    && (Abs(p - a) == Abs(p - r) ==> r == a)
    && (Abs(p - a) != Abs(p - r) && Abs(p - b) == Abs(p - r) ==> r == b)
  }

  lemma PaethNearest(a: u8, b: u8, c: u8)
    ensures Nearest(a, b, c, Paeth(a, b, c))
  {
  }

  /** What each filter type predicts from the bytes to the left, above and above left. */
  function Predict(filter: u8, a: u8, b: u8, c: u8): nat {
    match filter
    case 1 => a
    case 2 => b
    case 3 => (a as int + b as int) / 2
    case 4 => Paeth(a, b, c)
    case _ => 0
  }

  /** The byte `v` that filtered byte `d` stands for, by its filter type and the bytes left, above and above left:
      itself; plus the left one; plus the one above; plus half their sum, rounded down; plus the nearest neighbour. */
  ghost predicate Undone(filter: u8, d: u8, v: u8, a: u8, b: u8, c: u8) {
    && (filter == 0 ==> v == d)
    && (filter == 1 ==> v == (d as int + a as int) % 256)
    && (filter == 2 ==> v == (d as int + b as int) % 256)
    && (filter == 3 ==> exists m: nat :: HalfSum(a, b, m) && v == (d as int + m) % 256)
    && (filter == 4 ==> exists r: u8 :: Nearest(a, b, c, r) && v == (d as int + r as int) % 256)
    && filter <= 4
  }

  predicate HalfSum(a: u8, b: u8, m: nat) {
    2 * m <= a as int + b as int < 2 * m + 2
  }

  lemma PredictUndoes(filter: u8, d: u8, v: u8, a: u8, b: u8, c: u8)
    requires filter <= 4 && v as int == (d as int + Predict(filter, a, b, c)) % 256
    ensures Undone(filter, d, v, a, b, c)
  {
    PaethNearest(a, b, c);
    assert HalfSum(a, b, (a as int + b as int) / 2);
  }

  // ---- places in the image -----------------------------------------------------------------------

  /** Rows of `stride` bytes, `bpp` to a pixel. */
  datatype Shape = Shape(stride: nat, height: nat, bpp: nat) {
    predicate Valid() {
      stride > 0 && bpp > 0
    }
    predicate In(y: nat, x: nat) {
      y < height && x < stride
    }
    function Size(): nat {
      stride * height
    }
    /** The place of a byte in the image. */
    function At(y: nat, x: nat): nat {
      y * stride + x
    }
    /** The place of a row's filter type in the filtered data; its bytes follow. */
    function Line(y: nat): nat {
      y * (stride + 1)
    }
  }

  lemma InImage(sh: Shape, y: nat, x: nat)
    requires sh.In(y, x)
    ensures sh.At(y, x) < sh.Size()
  {
    Rows(y + 1, sh.height, sh.stride);
    assert (y + 1) * sh.stride == y * sh.stride + sh.stride;
  }

  lemma InData(sh: Shape, y: nat, x: nat)
    requires sh.In(y, x)
    ensures sh.Line(y) + 1 + x < (sh.stride + 1) * sh.height
  {
    Rows(y + 1, sh.height, sh.stride + 1);
    assert (y + 1) * (sh.stride + 1) == y * (sh.stride + 1) + (sh.stride + 1);
  }

  lemma Rows(a: nat, b: nat, n: nat)
    requires a <= b
    ensures a * n <= b * n && n * a <= n * b
  {
    assert (b - a) * n >= 0;
  }

  /** The order in which the bytes are visited. */
  predicate Before(r: nat, c: nat, y: nat, x: nat) {
    r < y || (r == y && c < x)
  }

  lemma BeforeAt(sh: Shape, r: nat, c: nat, y: nat, x: nat)
    requires Before(r, c, y, x) && c < sh.stride
    ensures sh.At(r, c) < sh.At(y, x)
  {
    if r < y {
      Rows(r + 1, y, sh.stride);
      assert (r + 1) * sh.stride == r * sh.stride + sh.stride;
    }
  }

  // ---- filtering and its reverse --------------------------------------------------------------------

  /** The byte at row `y`, column `x`; outside the image it is 0. */
  function Byte(sh: Shape, img: seq<u8>, y: int, x: int): u8
    requires |img| == sh.Size()
  {
    if y < 0 || x < 0 || !sh.In(y, x) then 0
    else
      InImage(sh, y, x);
      img[sh.At(y, x)]
  }

  function PredictAt(sh: Shape, filter: u8, img: seq<u8>, y: nat, x: nat): nat
    requires |img| == sh.Size()
  {
    Predict(filter, Byte(sh, img, y, x - sh.bpp), Byte(sh, img, y - 1, x), Byte(sh, img, y - 1, x - sh.bpp))
  }

  predicate Filled(sh: Shape, raw: seq<u8>) {
    |raw| >= (sh.stride + 1) * sh.height
  }

  function FilterOf(sh: Shape, raw: seq<u8>, y: nat): u8
    requires Filled(sh, raw) && y < sh.height && sh.Valid()
  {
    InData(sh, y, 0);
    raw[sh.Line(y)]
  }

  function DataAt(sh: Shape, raw: seq<u8>, y: nat, x: nat): u8
    requires Filled(sh, raw) && sh.In(y, x)
  {
    InData(sh, y, x);
    raw[sh.Line(y) + 1 + x]
  }

  /** The filtered byte is the difference from the prediction, and the prediction is made from the image itself. */
  predicate FilteredAt(sh: Shape, raw: seq<u8>, img: seq<u8>, y: nat, x: nat)
    requires sh.Valid() && Filled(sh, raw) && |img| == sh.Size() && sh.In(y, x)
  {
    DataAt(sh, raw, y, x) == (Byte(sh, img, y, x) as int - PredictAt(sh, FilterOf(sh, raw, y), img, y, x)) % 256
  }

  /** `raw` is `img` filtered row by row, with whatever filter type each row names. */
  ghost predicate IsFiltered(sh: Shape, raw: seq<u8>, img: seq<u8>)
    requires sh.Valid() && Filled(sh, raw)
  {
    && |img| == sh.Size()
    && (forall y :: 0 <= y < sh.height ==> FilterOf(sh, raw, y) <= 4)
    && forall y, x :: 0 <= y && 0 <= x && sh.In(y, x) ==> FilteredAt(sh, raw, img, y, x)
  }

  predicate RestoredAt(sh: Shape, raw: seq<u8>, img: seq<u8>, y: nat, x: nat)
    requires sh.Valid() && Filled(sh, raw) && |img| == sh.Size() && sh.In(y, x)
  {
    Byte(sh, img, y, x) == (DataAt(sh, raw, y, x) as int + PredictAt(sh, FilterOf(sh, raw, y), img, y, x)) % 256
  }

  /** Adding the prediction undoes subtracting it. */
  lemma FilterUndone(d: u8, v: u8, p: nat)
    ensures d as int == (v as int - p) % 256 <==> v as int == (d as int + p) % 256
  {
  }

  /** Everything before `(y, x)` is restored. */
  ghost predicate RestoredTo(sh: Shape, raw: seq<u8>, img: seq<u8>, y: nat, x: nat)
    requires sh.Valid() && Filled(sh, raw) && |img| == sh.Size()
  {
    forall r, c :: 0 <= r && 0 <= c && sh.In(r, c) && Before(r, c, y, x) ==> RestoredAt(sh, raw, img, r, c)
  }

  /** A byte and its prediction depend only on what was visited up to it. */
  lemma RestoredFrame(sh: Shape, raw: seq<u8>, img: seq<u8>, img': seq<u8>, r: nat, c: nat)
    requires sh.Valid() && Filled(sh, raw) && |img| == |img'| == sh.Size() && sh.In(r, c)
    requires forall k :: 0 <= k <= sh.At(r, c) < sh.Size() ==> img'[k] == img[k]
    ensures RestoredAt(sh, raw, img', r, c) <==> RestoredAt(sh, raw, img, r, c)
    ensures PredictAt(sh, FilterOf(sh, raw, r), img', r, c) == PredictAt(sh, FilterOf(sh, raw, r), img, r, c)
  {
    hide Predict;
    SameByte(sh, img, img', r, c, r, c);
    SameByte(sh, img, img', r, c - sh.bpp, r, c);
    SameByte(sh, img, img', r - 1, c, r, c);
    SameByte(sh, img, img', r - 1, c - sh.bpp, r, c);
  }

  lemma SameByte(sh: Shape, img: seq<u8>, img': seq<u8>, y: int, x: int, r: nat, c: nat)
    requires |img| == |img'| == sh.Size() && sh.In(r, c) && y <= r && (y == r ==> x <= c)
    requires forall k :: 0 <= k <= sh.At(r, c) < sh.Size() ==> img'[k] == img[k]
    ensures Byte(sh, img', y, x) == Byte(sh, img, y, x)
  {
    if 0 <= y && 0 <= x && sh.In(y, x) {
      InImage(sh, r, c);
      if Before(y, x, r, c) {
        BeforeAt(sh, y, x, r, c);
      }
    }
  }

  /** Writing the next byte keeps what was restored, and predicts as before. */
  lemma NextByte(sh: Shape, raw: seq<u8>, img: seq<u8>, y: nat, x: nat, v: u8)
    requires sh.Valid() && Filled(sh, raw) && |img| == sh.Size() && sh.In(y, x) && RestoredTo(sh, raw, img, y, x)
    requires v as int == (DataAt(sh, raw, y, x) as int + PredictAt(sh, FilterOf(sh, raw, y), img, y, x)) % 256
    ensures sh.At(y, x) < |img| && RestoredTo(sh, raw, img[sh.At(y, x) := v], y, x + 1)
  {
    hide PredictAt, Byte, DataAt, FilterOf;
    InImage(sh, y, x);
    var img' := img[sh.At(y, x) := v];
    forall r: nat, c: nat | sh.In(r, c) && Before(r, c, y, x + 1)
      ensures RestoredAt(sh, raw, img', r, c)
    {
      if Before(r, c, y, x) {
        BeforeAt(sh, r, c, y, x);
        RestoredFrame(sh, raw, img, img', r, c);
      } else {
        Written(sh, img, y, x, v);
        SamePrediction(sh, raw, img, img', y, x);
      }
    }
  }

  lemma Written(sh: Shape, img: seq<u8>, y: nat, x: nat, v: u8)
    requires |img| == sh.Size() && sh.In(y, x)
    ensures sh.At(y, x) < |img| && Byte(sh, img[sh.At(y, x) := v], y, x) == v
  {
    InImage(sh, y, x);
  }

  lemma SamePrediction(sh: Shape, raw: seq<u8>, img: seq<u8>, img': seq<u8>, y: nat, x: nat)
    requires sh.Valid() && Filled(sh, raw) && |img| == |img'| == sh.Size() && sh.In(y, x)
    requires forall k :: 0 <= k < sh.At(y, x) && k < |img| ==> img'[k] == img[k]
    ensures PredictAt(sh, FilterOf(sh, raw, y), img', y, x) == PredictAt(sh, FilterOf(sh, raw, y), img, y, x)
  {
    hide Predict;
    EarlierByte(sh, img, img', y, x - sh.bpp, y, x);
    EarlierByte(sh, img, img', y - 1, x, y, x);
    EarlierByte(sh, img, img', y - 1, x - sh.bpp, y, x);
  }

  lemma EarlierByte(sh: Shape, img: seq<u8>, img': seq<u8>, r: int, c: int, y: nat, x: nat)
    requires |img| == |img'| == sh.Size() && (r < y || (r == y && c < x))
    requires forall k :: 0 <= k < sh.At(y, x) && k < |img| ==> img'[k] == img[k]
    ensures Byte(sh, img', r, c) == Byte(sh, img, r, c)
  {
    if 0 <= r && 0 <= c && sh.In(r, c) {
      InImage(sh, r, c);
      BeforeAt(sh, r, c, y, x);
    }
  }

  lemma NextRow(sh: Shape, raw: seq<u8>, img: seq<u8>, y: nat)
    requires sh.Valid() && Filled(sh, raw) && |img| == sh.Size() && RestoredTo(sh, raw, img, y, sh.stride)
    ensures RestoredTo(sh, raw, img, y + 1, 0)
  {
    hide RestoredAt;
    forall r: nat, c: nat | sh.In(r, c) && Before(r, c, y + 1, 0)
      ensures RestoredAt(sh, raw, img, r, c)
    {
      assert Before(r, c, y, sh.stride);
    }
  }

  /** Every byte is restored from its filtered byte and its neighbours; outside the image these are 0. */
  ghost predicate Unfiltered(sh: Shape, raw: seq<u8>, img: seq<u8>)
    requires sh.Valid() && Filled(sh, raw)
  {
    && |img| == sh.Size()
    && forall y: nat, x: nat :: sh.In(y, x) ==>
         Undone(FilterOf(sh, raw, y), DataAt(sh, raw, y, x), Byte(sh, img, y, x),
                Byte(sh, img, y, x - sh.bpp), Byte(sh, img, y - 1, x), Byte(sh, img, y - 1, x - sh.bpp))
  }

  lemma FilteredUndone(sh: Shape, raw: seq<u8>, img: seq<u8>)
    requires sh.Valid() && Filled(sh, raw) && IsFiltered(sh, raw, img)
    ensures Unfiltered(sh, raw, img)
  {
    hide Predict, Undone, Byte, DataAt, FilterOf;
    forall y: nat, x: nat | sh.In(y, x)
      ensures Undone(FilterOf(sh, raw, y), DataAt(sh, raw, y, x), Byte(sh, img, y, x),
                     Byte(sh, img, y, x - sh.bpp), Byte(sh, img, y - 1, x), Byte(sh, img, y - 1, x - sh.bpp))
    {
      assert FilteredAt(sh, raw, img, y, x);
      FilterUndone(DataAt(sh, raw, y, x), Byte(sh, img, y, x), PredictAt(sh, FilterOf(sh, raw, y), img, y, x));
      PredictUndoes(FilterOf(sh, raw, y), DataAt(sh, raw, y, x), Byte(sh, img, y, x),
        Byte(sh, img, y, x - sh.bpp), Byte(sh, img, y - 1, x), Byte(sh, img, y - 1, x - sh.bpp));
    }
  }

  /** Where bytes stand: a row's filter type comes before its bytes, and the image has no such bytes. */
  lemma Places(sh: Shape, raw: seq<u8>, img: seq<u8>, y: nat, x: nat)
    requires sh.Valid() && Filled(sh, raw) && |img| == sh.stride * sh.height && sh.In(y, x)
    ensures y * (sh.stride + 1) + 1 + x < |raw| && y * sh.stride + x < |img|
    ensures FilterOf(sh, raw, y) == raw[y * (sh.stride + 1)]
    ensures DataAt(sh, raw, y, x) == raw[y * (sh.stride + 1) + 1 + x]
    ensures Byte(sh, img, y, x) == img[y * sh.stride + x]
  {
    InData(sh, y, x);
    InImage(sh, y, x);
  }

  /** The unfilter loop. An unknown filter type is refused; otherwise the result is the image that filters to `raw`. */
  method UnfilterRows(sh: Shape, raw: seq<u8>) returns (r: Option<seq<u8>>)
    requires sh.Valid() && Filled(sh, raw)
    ensures r.Some? <==> forall y :: 0 <= y < sh.height ==> FilterOf(sh, raw, y) <= 4
    ensures r.Some? ==> IsFiltered(sh, raw, r.value) && Unfiltered(sh, raw, r.value)
  {
    hide PredictAt, Byte, DataAt, FilterOf, RestoredTo, Shape.Size;
    var img := new u8[sh.Size()];
    RestoredNone(sh, raw, img[..]);
    for y := 0 to sh.height
      invariant RestoredTo(sh, raw, img[..], y, 0)
      invariant forall k :: 0 <= k < y ==> FilterOf(sh, raw, k) <= 4
    {
      var filter := FilterOf(sh, raw, y);
      for x := 0 to sh.stride
        invariant RestoredTo(sh, raw, img[..], y, x) && (x > 0 ==> filter <= 4)
      {
        if filter > 4 {
          return None;
        }
        var v: u8 := (DataAt(sh, raw, y, x) as int + PredictAt(sh, filter, img[..], y, x)) % 256;
        NextByte(sh, raw, img[..], y, x, v);
        ghost var was := img[..];
        img[sh.At(y, x)] := v;
        assert img[..] == was[sh.At(y, x) := v];
      }
      NextRow(sh, raw, img[..], y);
    }
    AllRestored(sh, raw, img[..]);
    FilteredUndone(sh, raw, img[..]);
    return Some(img[..]);
  }

  lemma RestoredNone(sh: Shape, raw: seq<u8>, img: seq<u8>)
    requires sh.Valid() && Filled(sh, raw) && |img| == sh.Size()
    ensures RestoredTo(sh, raw, img, 0, 0)
  {
  }

  lemma AllRestored(sh: Shape, raw: seq<u8>, img: seq<u8>)
    requires sh.Valid() && Filled(sh, raw) && |img| == sh.Size() && RestoredTo(sh, raw, img, sh.height, 0)
    requires forall y :: 0 <= y < sh.height ==> FilterOf(sh, raw, y) <= 4
    ensures IsFiltered(sh, raw, img)
  {
    hide PredictAt, Byte, DataAt, FilterOf;
    forall y: nat, x: nat | sh.In(y, x)
      ensures FilteredAt(sh, raw, img, y, x)
    {
      assert Before(y, x, sh.height, 0);
      assert RestoredAt(sh, raw, img, y, x);
      FilterUndone(DataAt(sh, raw, y, x), Byte(sh, img, y, x), PredictAt(sh, FilterOf(sh, raw, y), img, y, x));
    }
  }

  /** Up to any byte, two images that filter to the same data agree. */
  lemma {:induction false} SameImageTo(sh: Shape, raw: seq<u8>, a: seq<u8>, b: seq<u8>, y: nat, x: nat)
    requires sh.Valid() && Filled(sh, raw) && IsFiltered(sh, raw, a) && IsFiltered(sh, raw, b) && sh.In(y, x)
    ensures Byte(sh, a, y, x) == Byte(sh, b, y, x)
    decreases y, x
  {
    hide Predict, DataAt, FilterOf, Byte;
    SameNeighbour(sh, raw, a, b, y, x - sh.bpp, y, x);
    SameNeighbour(sh, raw, a, b, y - 1, x, y, x);
    SameNeighbour(sh, raw, a, b, y - 1, x - sh.bpp, y, x);
    assert FilteredAt(sh, raw, a, y, x) && FilteredAt(sh, raw, b, y, x);
    var p := PredictAt(sh, FilterOf(sh, raw, y), a, y, x);
    FilterUndone(DataAt(sh, raw, y, x), Byte(sh, a, y, x), p);
    FilterUndone(DataAt(sh, raw, y, x), Byte(sh, b, y, x), p);
  }

  lemma {:induction false} SameNeighbour(sh: Shape, raw: seq<u8>, a: seq<u8>, b: seq<u8>, r: int, c: int, y: nat,
                                         x: nat)
    requires sh.Valid() && Filled(sh, raw) && IsFiltered(sh, raw, a) && IsFiltered(sh, raw, b)
    requires (r < y && c <= x) || (r == y && c < x)
    ensures Byte(sh, a, r, c) == Byte(sh, b, r, c)
    decreases y, x, 0
  {
    hide FilteredAt, FilterOf;
    if 0 <= r && 0 <= c && sh.In(r, c) {
      SameImageTo(sh, raw, a, b, r, c);
    }
  }

  /** The loop recovers the original image from its filtered scanlines, whatever filter each row used. */
  lemma UnfilterInverse(sh: Shape, raw: seq<u8>, img: seq<u8>, r: seq<u8>)
    requires sh.Valid() && Filled(sh, raw) && IsFiltered(sh, raw, img) && IsFiltered(sh, raw, r)
    ensures r == img
  {
    hide FilteredAt, FilterOf;
    forall k | 0 <= k < |img|
      ensures r[k] == img[k]
    {
      var y, x := RowOf(sh, k);
      SameImageTo(sh, raw, img, r, y, x);
    }
  }

  lemma RowOf(sh: Shape, k: nat) returns (y: nat, x: nat)
    requires sh.stride > 0 && k < sh.Size()
    ensures sh.In(y, x) && sh.At(y, x) == k
  {
    y, x := k / sh.stride, k % sh.stride;
    if y >= sh.height {
      Rows(sh.height, y, sh.stride);
    }
  }

  /** The scanlines of an image, row `y` filtered with `filters[y]`. */
  function Filtered(sh: Shape, img: seq<u8>, filters: seq<u8>): (raw: seq<u8>)
    requires sh.Valid() && |img| == sh.Size() && |filters| == sh.height
    ensures |raw| == (sh.stride + 1) * sh.height
  {
    seq((sh.stride + 1) * sh.height, k requires 0 <= k < (sh.stride + 1) * sh.height =>
      LineByte(sh, img, filters, k / (sh.stride + 1), k % (sh.stride + 1)))
  }

  function LineByte(sh: Shape, img: seq<u8>, filters: seq<u8>, y: nat, j: nat): u8
    requires |img| == sh.Size()
  {
    if y >= |filters| then 0
    else if j == 0 then filters[y]
    else (Byte(sh, img, y, j - 1) as int - PredictAt(sh, filters[y], img, y, j - 1)) % 256
  }

  lemma LinePlace(sh: Shape, y: nat, j: nat)
    requires y < sh.height && j <= sh.stride
    ensures sh.Line(y) + j < (sh.stride + 1) * sh.height
    ensures (sh.Line(y) + j) / (sh.stride + 1) == y && (sh.Line(y) + j) % (sh.stride + 1) == j
  {
    Rows(y + 1, sh.height, sh.stride + 1);
    assert (y + 1) * (sh.stride + 1) == y * (sh.stride + 1) + (sh.stride + 1);
    QuotientIs(y * (sh.stride + 1) + j, y, sh.stride + 1, j);
    RemainderIs(y * (sh.stride + 1) + j, y, sh.stride + 1, j);
  }

  lemma FilteredIs(sh: Shape, img: seq<u8>, filters: seq<u8>)
    requires sh.Valid() && |img| == sh.Size() && |filters| == sh.height
    requires forall y :: 0 <= y < sh.height ==> filters[y] <= 4
    ensures IsFiltered(sh, Filtered(sh, img, filters), img)
  {
    hide PredictAt, Byte, Shape.Line;
    var raw := Filtered(sh, img, filters);
    forall y | 0 <= y < sh.height
      ensures FilterOf(sh, raw, y) == filters[y]
    {
      LinePlace(sh, y, 0);
    }
    forall y: nat, x: nat | sh.In(y, x)
      ensures FilteredAt(sh, raw, img, y, x)
    {
      LinePlace(sh, y, x + 1);
    }
  }

  /** For any image and any choice of the five filters per row, unfiltering the filtered scanlines gives the image. */
  method RoundTrip(sh: Shape, img: seq<u8>, filters: seq<u8>) returns (r: Option<seq<u8>>)
    requires sh.Valid() && |img| == sh.Size() && |filters| == sh.height
    requires forall y :: 0 <= y < sh.height ==> filters[y] <= 4
    ensures r == Some(img)
  {
    FilteredIs(sh, img, filters);
    r := UnfilterRows(sh, Filtered(sh, img, filters));
    UnfilterInverse(sh, Filtered(sh, img, filters), img, r.value);
  }
}
