/** The nine typed values, their text forms and their order. */
module Value {
  import opened Errors
  import opened Bytes
  import opened Bignum
  import opened TextParts

  datatype Type = TInteger | TUnsigned | TDecimal | TString | TDate | TDateTz | TTime | TDateTime | TDateTimeTz

  function Tag(t: Type): u8 {
    match t
    case TInteger => 1
    case TUnsigned => 2
    case TDecimal => 3
    case TString => 4
    case TDate => 5
    case TDateTz => 6
    case TTime => 7
    case TDateTime => 8
    case TDateTimeTz => 9
  }

  function FromTag(tag: u8): (r: Option<Type>)
    ensures r.Some? ==> Tag(r.value) == tag
    ensures forall t :: Tag(t) == tag ==> r == Some(t)
  {
    if tag == 1 then Some(TInteger)
    else if tag == 2 then Some(TUnsigned)
    else if tag == 3 then Some(TDecimal)
    else if tag == 4 then Some(TString)
    else if tag == 5 then Some(TDate)
    else if tag == 6 then Some(TDateTz)
    else if tag == 7 then Some(TTime)
    else if tag == 8 then Some(TDateTime)
    else if tag == 9 then Some(TDateTimeTz)
    else None
  }

  // ---- decimals -----------------------------------------------------------------------

  datatype Decimal = Decimal(negative: bool, int_: BigUint, frac: seq<Digit>) {
    predicate Canonical() {
      int_.Canonical() && CanonicalFrac(frac) && (negative ==> int_.digits != [] || frac != [])
    }
    ghost function Value(): real {
      var mag := int_.Value() as real + FracVal(frac);
      if negative then 0.0 - mag else mag
    }
  }

  function MakeDecimal(negative: bool, int_: BigUint, frac: seq<Digit>): (d: Decimal)
    requires int_.Canonical()
    ensures d.Canonical()
    ensures var mag := int_.Value() as real + FracVal(frac); d.Value() == if negative then 0.0 - mag else mag
  {
    var f := TrimFrac(frac);
    TrimKeepsValue(frac);
    Decimal(negative && !(int_.digits == [] && f == []), int_, f)
  }

  function ParseDecimal(s: Text): (r: Option<Decimal>)
    ensures r.Some? ==> r.value.Canonical()
  {
    var signed := s != [] && (s[0] == 45 || s[0] == 43);
    DecimalBody(signed && s[0] == 45, if signed then s[1..] else s)
  }

  /** The parts around the point; without one, the second is empty. */
  function CutPoint(s: Text): (Text, Text) {
    match SplitOnce(s, 46)
    case None => (s, [])
    case Some(parts) => parts
  }

  function DecimalBody(negative: bool, rest: Text): (r: Option<Decimal>)
    ensures r.Some? ==> r.value.Canonical()
  {
    if rest == [] then None else DecimalParts(negative, CutPoint(rest).0, CutPoint(rest).1)
  }

  /** `.5` and `5.` are numbers; a lone point is not. */
  function DecimalParts(negative: bool, int_: Text, frac: Text): (r: Option<Decimal>)
    ensures r.Some? ==> r.value.Canonical()
  {
    if (int_ == [] && frac == []) || !AllDigits(frac) then None
    else
      var mag := if int_ == [] then Some(BigUint([])) else ParseUint(int_);
      if mag.None? then None else Some(MakeDecimal(negative, mag.value, DigitsOf(frac)))
  }

  function DecimalText(d: Decimal): Text {
    (if d.negative then [45] else []) + UintText(d.int_) + FracText(d.frac)
  }

  function FracText(f: seq<Digit>): Text {
    if f == [] then [] else [46] + TextOf(f)
  }

  lemma NoPunctuation(s: Text, c: u8)
    requires AllDigits(s) && !IsDigit(c)
    ensures c !in s
  {
  }

  lemma TrimCanonical(f: seq<Digit>)
    requires CanonicalFrac(f)
    ensures TrimFrac(f) == f
  {
  }

  /** A leading minus sign can be told from the digits behind it. */
  lemma SignCut(negative: bool, body: Text)
    requires body != [] && IsDigit(body[0])
    ensures var s := (if negative then [45] else []) + body;
      s != [] && (s[0] == 45 <==> negative) && s[0] != 43 && (if negative then s[1..] else s) == body
  {
    var s := (if negative then [45] else []) + body;
    if negative {
      assert s[1..] == body;
    } else {
      assert s == body;
    }
  }

  lemma CutPointAt(digits: Text, f: seq<Digit>)
    requires AllDigits(digits)
    ensures CutPoint(digits + FracText(f)) == (digits, TextOf(f))
  {
    NoPunctuation(digits, 46);
    if f == [] {
      assert digits + FracText(f) == digits;
      IndexOfNone(digits, 46);
    } else {
      assert digits + FracText(f) == digits + [46] + TextOf(f);
      SplitOnceAt(digits, 46, TextOf(f));
    }
  }

  lemma DecimalPartsRoundTrip(d: Decimal)
    requires d.Canonical()
    ensures DecimalParts(d.negative, UintText(d.int_), TextOf(d.frac)) == Some(d)
  {
    UintRoundTrip(d.int_);
    TrimCanonical(d.frac);
  }

  lemma DecimalRoundTrip(d: Decimal)
    requires d.Canonical()
    ensures ParseDecimal(DecimalText(d)) == Some(d)
  {
    hide ParseDecimal, CutPoint, UintText, FracText, DecimalParts;
    var digits := UintText(d.int_);
    var body := digits + FracText(d.frac);
    assert body != [] && body[0] == digits[0] && IsDigit(digits[0]);
    SignCut(d.negative, body);
    assert DecimalText(d) == (if d.negative then [45] else []) + body;
    CutPointAt(digits, d.frac);
    DecimalFromParts(DecimalText(d), d.negative, body, digits, TextOf(d.frac));
    DecimalPartsRoundTrip(d);
  }

  lemma DecimalFromParts(s: Text, negative: bool, body: Text, int_: Text, frac: Text)
    requires s != [] && (s[0] == 45 <==> negative) && s[0] != 43 && (if negative then s[1..] else s) == body
    requires body != [] && CutPoint(body) == (int_, frac)
    ensures ParseDecimal(s) == DecimalParts(negative, int_, frac)
  {
    hide CutPoint, DecimalParts;
  }

  function CompareDecimal(a: Decimal, b: Decimal): Ordering {
    if !a.negative && b.negative then Greater
    else if a.negative && !b.negative then Less
    else
      var mag := CompareUint(a.int_, b.int_).Then(CompareFrac(a.frac, b.frac));
      if a.negative then mag.Reverse() else mag
  }

  /** `cmp` is the order of the numbers denoted, and ties only equals. */
  lemma DecimalOrder(a: Decimal, b: Decimal)
    requires a.Canonical() && b.Canonical()
    ensures CompareDecimal(a, b) == CompareReal(a.Value(), b.Value())
    ensures a.Value() == b.Value() ==> a == b
  {
    UintOrder(a.int_, b.int_);
    FracOrder(a.frac, b.frac);
    DecimalSign(a);
    DecimalSign(b);
    var x, y := a.int_.Value(), b.int_.Value();
    if x < y {
      assert x as real + 1.0 <= y as real;
    } else if y < x {
      assert y as real + 1.0 <= x as real;
    }
    if a.Value() == b.Value() {
      assert a.negative == b.negative;
      FracInjective(a.frac, b.frac);
    }
  }

  lemma DecimalSign(d: Decimal)
    requires d.Canonical()
    ensures d.negative <==> d.Value() < 0.0
  {
    if d.negative {
      ValBound(d.int_.digits);
      if FracVal(d.frac) == 0.0 {
        FracZero(d.frac);
      }
    }
  }

  // ---- dates ----------------------------------------------------------------------------

  datatype Date = Date(year: BigInt, month: u8, day: u8) {
    predicate Canonical() {
      year.Canonical() && 1 <= month <= 12 && 1 <= day <= DaysInMonth(year, month)
    }
  }

  /** The Gregorian rule on the absolute year. */
  predicate IsLeap(year: BigInt) {
    var y := year.mag.Value();
    y % 4 == 0 && (y % 100 != 0 || y % 400 == 0)
  }

  method IsLeapLoop(year: BigInt) returns (r: bool)
    ensures r == IsLeap(year)
  {
    var a := RemU32(year.mag, 4);
    var b := RemU32(year.mag, 100);
    var c := RemU32(year.mag, 400);
    return a == 0 && (b != 0 || c == 0);
  }

  function DaysInMonth(year: BigInt, month: u8): u8 {
    if month in {1, 3, 5, 7, 8, 10, 12} then 31
    else if month in {4, 6, 9, 11} then 30
    else if month == 2 then (if IsLeap(year) then 29 else 28)
    else 0
  }

  /** `[-]year-MM-DD`, cut at the last two dashes. */
  function ParseDate(s: Text): (r: Option<Date>)
    ensures r.Some? ==> r.value.Canonical()
  {
    var neg := s != [] && s[0] == 45;
    match SplitDate(if neg then s[1..] else s)
    case None => None
    case Some((yy, mm, dd)) => MakeDate(neg, ParseUint(yy), ParseFixed(mm, 2), ParseFixed(dd, 2))
  }

  function SplitDate(body: Text): Option<(Text, Text, Text)> {
    match SplitLast(body, 45)
    case None => None
    case Some((front, dd)) =>
      match SplitLast(front, 45)
      case None => None
      case Some((yy, mm)) => Some((yy, mm, dd))
  }

  function MakeDate(neg: bool, y: Option<BigUint>, m: Option<nat>, d: Option<nat>): (r: Option<Date>)
    requires y.Some? ==> y.value.Canonical()
    ensures r.Some? ==> r.value.Canonical()
  {
    if y.None? || m.None? || d.None? then None
    else
      var year := FromParts(neg, y.value);
      if m.value < 1 || m.value > 12 || d.value < 1 || d.value > DaysInMonth(year, m.value) then None
      else Some(Date(year, m.value, d.value))
  }

  /** Years are padded to four digits. */
  function YearText(mag: BigUint): (s: Text)
    ensures s != [] && AllDigits(s)
  {
    var t := UintText(mag);
    Zeros(4 - |t|) + t
  }

  function Zeros(n: int): (s: Text)
    ensures AllDigits(s)
  {
    if n <= 0 then [] else [48] + Zeros(n - 1)
  }

  function DateText(d: Date): Text
    requires d.month < 100 && d.day < 100
  {
    (if d.year.negative then [45] else []) + YearText(d.year.mag) + [45] + Push2(d.month) + [45] + Push2(d.day)
  }

  lemma LeadingZero(t: Text)
    requires t != [] && AllDigits(t)
    ensures ParseUint([48] + t) == ParseUint(t)
  {
    var ds := DigitsOf([48] + t);
    assert ds[1..] == DigitsOf(t) && ds[0] == 0;
  }

  lemma {:induction false} PaddedYear(n: int, u: BigUint)
    requires u.Canonical()
    ensures ParseUint(Zeros(n) + UintText(u)) == Some(u)
  {
    if n <= 0 {
      UintRoundTrip(u);
      assert Zeros(n) + UintText(u) == UintText(u);
    } else {
      PaddedYear(n - 1, u);
      var t := Zeros(n - 1) + UintText(u);
      assert Zeros(n) + UintText(u) == [48] + t;
      LeadingZero(t);
    }
  }

  lemma SplitDateAt(yy: Text, mm: Text, dd: Text)
    requires AllDigits(mm) && AllDigits(dd)
    ensures SplitDate(yy + [45] + mm + [45] + dd) == Some((yy, mm, dd))
  {
    NoPunctuation(mm, 45);
    NoPunctuation(dd, 45);
    SplitLastAt(yy + [45] + mm, 45, dd);
    SplitLastAt(yy, 45, mm);
  }

  lemma MakeDateRoundTrip(d: Date)
    requires d.Canonical()
    ensures MakeDate(d.year.negative, ParseUint(YearText(d.year.mag)), ParseFixed(Push2(d.month), 2),
      ParseFixed(Push2(d.day), 2))
      == Some(d)
  {
    PaddedYear(4 - |UintText(d.year.mag)|, d.year.mag);
    Push2RoundTrip(d.month);
    Push2RoundTrip(d.day);
  }

  lemma DateFromBody(s: Text, negative: bool, body: Text, yy: Text, mm: Text, dd: Text)
    requires s != [] && (s[0] == 45 <==> negative) && (if negative then s[1..] else s) == body
    requires SplitDate(body) == Some((yy, mm, dd))
    ensures ParseDate(s) == MakeDate(negative, ParseUint(yy), ParseFixed(mm, 2), ParseFixed(dd, 2))
  {
  }

  lemma DateRoundTrip(d: Date)
    requires d.Canonical()
    ensures ParseDate(DateText(d)) == Some(d)
  {
    hide ParseDate, SplitDate, MakeDate, ParseUint, ParseFixed, YearText, Push2;
    var yy, mm, dd := YearText(d.year.mag), Push2(d.month), Push2(d.day);
    var body := yy + [45] + mm + [45] + dd;
    assert body[0] == yy[0];
    SignCut(d.year.negative, body);
    assert DateText(d) == (if d.year.negative then [45] else []) + body;
    SplitDateAt(yy, mm, dd);
    DateFromBody(DateText(d), d.year.negative, body, yy, mm, dd);
    MakeDateRoundTrip(d);
  }

  function CompareDate(a: Date, b: Date): Ordering {
    CompareBigInt(a.year, b.year).Then(CompareInt(a.month, b.month)).Then(CompareInt(a.day, b.day))
  }

  // ---- times ------------------------------------------------------------------------------

  datatype TimeOfDay = TimeOfDay(secs: u32, frac: seq<Digit>) {
    predicate Canonical() {
      secs < 86400 && CanonicalFrac(frac)
    }
  }

  function ParseTime(s: Text): (r: Option<TimeOfDay>)
    ensures r.Some? ==> r.value.Canonical()
  {
    match SplitOnce(s, 46)
    case None => MakeTime(ParseHms(s), [])
    case Some((hms, frac)) =>
      if frac == [] || !AllDigits(frac) then None else MakeTime(ParseHms(hms), DigitsOf(frac))
  }

  function ParseHms(s: Text): (r: Option<u32>)
    ensures r.Some? ==> r.value < 86400
  {
    var parts := Split(s, 58);
    if |parts| != 3 then None
    else
      var h, m, sec := ParseFixed(parts[0], 2), ParseFixed(parts[1], 2), ParseFixed(parts[2], 2);
      if h.None? || m.None? || sec.None? || h.value > 23 || m.value > 59 || sec.value > 59 then None
      else Some(h.value * 3600 + m.value * 60 + sec.value)
  }

  function MakeTime(secs: Option<u32>, frac: seq<Digit>): (r: Option<TimeOfDay>)
    requires secs.Some? ==> secs.value < 86400
    ensures r.Some? ==> r.value.Canonical()
  {
    if secs.None? then None else Some(TimeOfDay(secs.value, TrimFrac(frac)))
  }

  function HmsText(secs: u32): Text
    requires secs < 86400
  {
    Push2(secs / 3600) + [58] + Push2(secs % 3600 / 60) + [58] + Push2(secs % 60)
  }

  function TimeText(t: TimeOfDay): Text
    requires t.secs < 86400
  {
    HmsText(t.secs) + FracText(t.frac)
  }

  lemma HmsSplit(secs: u32)
    requires secs < 86400
    ensures Split(HmsText(secs), 58) == [Push2(secs / 3600), Push2(secs % 3600 / 60), Push2(secs % 60)]
    ensures 46 !in HmsText(secs)
  {
    var h, m, s := Push2(secs / 3600), Push2(secs % 3600 / 60), Push2(secs % 60);
    NoPunctuation(h, 58);
    NoPunctuation(m, 58);
    NoPunctuation(s, 58);
    assert HmsText(secs) == h + [58] + (m + [58] + s);
    SplitAt(h, 58, m + [58] + s);
    SplitAt(m, 58, s);
    IndexOfNone(s, 58);
  }

  lemma HmsRoundTrip(secs: u32)
    requires secs < 86400
    ensures ParseHms(HmsText(secs)) == Some(secs)
  {
    hide ParseFixed, HmsText, Split, Push2;
    HmsSplit(secs);
    Push2RoundTrip(secs / 3600);
    Push2RoundTrip(secs % 3600 / 60);
    Push2RoundTrip(secs % 60);
    assert secs == secs / 3600 * 3600 + secs % 3600 / 60 * 60 + secs % 60;
  }

  lemma TimeRoundTrip(t: TimeOfDay)
    requires t.Canonical()
    ensures ParseTime(TimeText(t)) == Some(t)
  {
    var hms := HmsText(t.secs);
    HmsRoundTrip(t.secs);
    HmsSplit(t.secs);
    TrimCanonical(t.frac);
    if t.frac == [] {
      assert TimeText(t) == hms;
      IndexOfNone(hms, 46);
      TimeFromHms(hms, t.secs);
    } else {
      assert TimeText(t) == hms + [46] + TextOf(t.frac);
      SplitOnceAt(hms, 46, TextOf(t.frac));
      TimeFromParts(TimeText(t), hms, TextOf(t.frac), t.secs);
    }
  }

  lemma TimeFromHms(s: Text, secs: u32)
    requires SplitOnce(s, 46) == None && ParseHms(s) == Some(secs)
    ensures ParseTime(s) == Some(TimeOfDay(secs, []))
  {
  }

  lemma TimeFromParts(s: Text, hms: Text, frac: Text, secs: u32)
    requires SplitOnce(s, 46) == Some((hms, frac)) && ParseHms(hms) == Some(secs)
    requires frac != [] && AllDigits(frac)
    ensures ParseTime(s) == Some(TimeOfDay(secs, TrimFrac(DigitsOf(frac))))
  {
  }

  function CompareTime(a: TimeOfDay, b: TimeOfDay): Ordering {
    CompareInt(a.secs, b.secs).Then(CompareFrac(a.frac, b.frac))
  }

  // ---- zone offsets ---------------------------------------------------------------------------

  predicate CanonicalOffset(off: int) {
    -1440 < off < 1440
  }

  function ParseOffset(s: Text): (r: Option<int>)
    ensures r.Some? ==> CanonicalOffset(r.value)
  {
    if s == [90] || s == [122] then Some(0)
    else if s == [] || (s[0] != 43 && s[0] != 45) then None
    else
      match SplitOnce(s[1..], 58)
      case None => None
      case Some((hh, mm)) =>
        var h, m := ParseFixed(hh, 2), ParseFixed(mm, 2);
        if h.None? || m.None? || h.value > 23 || m.value > 59 then None
        else
          var total := h.value * 60 + m.value;
          Some(if s[0] == 45 then 0 - total else total)
  }

  function OffsetText(off: int): (s: Text)
    requires CanonicalOffset(off)
    ensures |s| == 6 && s[0] == (if off < 0 then 45 else 43) && s[3] == 58 && IsDigit(s[5])
  {
    var a := if off < 0 then 0 - off else off;
    [if off < 0 then 45 else 43] + Push2(a / 60) + [58] + Push2(a % 60)
  }

  lemma OffsetRoundTrip(off: int)
    requires CanonicalOffset(off)
    ensures ParseOffset(OffsetText(off)) == Some(off)
  {
    var a := if off < 0 then 0 - off else off;
    var hh, mm := Push2(a / 60), Push2(a % 60);
    Push2RoundTrip(a / 60);
    Push2RoundTrip(a % 60);
    NoPunctuation(hh, 58);
    assert OffsetText(off)[1..] == hh + [58] + mm;
    SplitOnceAt(hh, 58, mm);
    assert a == a / 60 * 60 + a % 60;
  }

  /** Not inside a multi-byte character. */
  predicate CharBoundary(s: Text, i: nat)
    requires i <= |s|
  {
    i == 0 || i == |s| || !(0x80 <= s[i] < 0xC0)
  }

  /** Cut a trailing `Z`, `+HH:MM` or `-HH:MM` off the end. */
  function SplitTz(s: Text): (r: Option<(Text, int)>)
    ensures r.Some? ==> CanonicalOffset(r.value.1)
  {
    if s != [] && (s[|s| - 1] == 90 || s[|s| - 1] == 122) then Some((s[..|s| - 1], 0))
    else if |s| >= 6 && CharBoundary(s, |s| - 6) then
      var cut := |s| - 6;
      var tail := s[cut..];
      if (tail[0] == 43 || tail[0] == 45) && tail[3] == 58 && ParseOffset(tail).Some?
      then Some((s[..cut], ParseOffset(tail).value))
      else None
    else None
  }

  lemma SplitTzAt(s: Text, off: int)
    requires CanonicalOffset(off)
    ensures SplitTz(s + OffsetText(off)) == Some((s, off))
  {
    var all := s + OffsetText(off);
    OffsetRoundTrip(off);
    assert all[|s|..] == OffsetText(off) && all[..|s|] == s;
    assert all[|s|] == OffsetText(off)[0];
    assert all[|all| - 1] == OffsetText(off)[5];
  }

  /** Cut at `T`, or at a space. */
  function SplitDt(s: Text): Option<(Text, Text)> {
    if SplitOnce(s, 84).Some? then SplitOnce(s, 84) else SplitOnce(s, 32)
  }

  lemma DateHasNoT(d: Date)
    requires d.Canonical()
    ensures 84 !in DateText(d)
  {
    NoPunctuation(YearText(d.year.mag), 84);
  }

  lemma SplitDtAt(d: Date, t: Text)
    requires d.Canonical()
    ensures SplitDt(DateText(d) + [84] + t) == Some((DateText(d), t))
  {
    DateHasNoT(d);
    SplitOnceAt(DateText(d), 84, t);
  }

  // ---- values -----------------------------------------------------------------------------------

  datatype Value =
    | Integer(i: BigInt)
    | Unsigned(u: BigUint)
    | Dec(d: Decimal)
    | Str(s: Text)
    | VDate(date: Date)
    | VDateTz(date: Date, offset: int)
    | VTime(time: TimeOfDay)
    | VDateTime(date: Date, time: TimeOfDay)
    | VDateTimeTz(date: Date, time: TimeOfDay, offset: int)
  {
    function TypeOf(): Type {
      match this
      case Integer(_) => TInteger
      case Unsigned(_) => TUnsigned
      case Dec(_) => TDecimal
      case Str(_) => TString
      case VDate(_) => TDate
      case VDateTz(_, _) => TDateTz
      case VTime(_) => TTime
      case VDateTime(_, _) => TDateTime
      case VDateTimeTz(_, _, _) => TDateTimeTz
    }

    predicate Canonical() {
      match this
      case Integer(v) => v.Canonical()
      case Unsigned(v) => v.Canonical()
      case Dec(v) => v.Canonical()
      case Str(_) => true
      case VDate(d) => d.Canonical()
      case VDateTz(d, off) => d.Canonical() && CanonicalOffset(off)
      case VTime(t) => t.Canonical()
      case VDateTime(d, t) => d.Canonical() && t.Canonical()
      case VDateTimeTz(d, t, off) => d.Canonical() && t.Canonical() && CanonicalOffset(off)
    }
  }

  function ParseDateTime(s: Text): (r: Option<(Date, TimeOfDay)>)
    ensures r.Some? ==> r.value.0.Canonical() && r.value.1.Canonical()
  {
    match SplitDt(s)
    case None => None
    case Some((d, t)) =>
      if ParseDate(d).None? || ParseTime(t).None? then None
      else Some((ParseDate(d).value, ParseTime(t).value))
  }

  /** The value a text denotes in a column of type `ty`, if any. Only canonical values come out. */
  function ParseValue(ty: Type, s: Text): (r: Option<Value>)
    ensures r.Some? ==> r.value.TypeOf() == ty && r.value.Canonical()
  {
    match ty
    case TInteger => if ParseInt(s).None? then None else Some(Integer(ParseInt(s).value))
    case TUnsigned => if ParseUint(s).None? then None else Some(Unsigned(ParseUint(s).value))
    case TDecimal => if ParseDecimal(s).None? then None else Some(Dec(ParseDecimal(s).value))
    case TString => Some(Str(s))
    case TDate => if ParseDate(s).None? then None else Some(VDate(ParseDate(s).value))
    case TDateTz =>
      (match SplitTz(s)
       case None => None
       case Some((d, off)) => if ParseDate(d).None? then None else Some(VDateTz(ParseDate(d).value, off)))
    case TTime => if ParseTime(s).None? then None else Some(VTime(ParseTime(s).value))
    case TDateTime =>
      (match ParseDateTime(s)
       case None => None
       case Some((d, t)) => Some(VDateTime(d, t)))
    case TDateTimeTz =>
      (match SplitTz(s)
       case None => None
       case Some((dt, off)) =>
         match ParseDateTime(dt)
         case None => None
         case Some((d, t)) => Some(VDateTimeTz(d, t, off)))
  }

  function ValueText(v: Value): Text
    requires v.Canonical()
  {
    match v
    case Integer(i) => IntText(i)
    case Unsigned(u) => UintText(u)
    case Dec(d) => DecimalText(d)
    case Str(s) => s
    case VDate(d) => DateText(d)
    case VDateTz(d, off) => DateText(d) + OffsetText(off)
    case VTime(t) => TimeText(t)
    case VDateTime(d, t) => DateText(d) + [84] + TimeText(t)
    case VDateTimeTz(d, t, off) => DateText(d) + [84] + TimeText(t) + OffsetText(off)
  }

  lemma TzParts(s: Text, d: Text, date: Date, off: int)
    requires SplitTz(s) == Some((d, off)) && ParseDate(d) == Some(date)
    ensures ParseValue(TDateTz, s) == Some(VDateTz(date, off))
  {
    hide SplitTz, ParseDate;
  }

  lemma DateTzRoundTrip(d: Date, off: int)
    requires d.Canonical() && CanonicalOffset(off)
    ensures ParseValue(TDateTz, DateText(d) + OffsetText(off)) == Some(VDateTz(d, off))
  {
    SplitTzAt(DateText(d), off);
    DateRoundTrip(d);
    TzParts(DateText(d) + OffsetText(off), DateText(d), d, off);
  }

  lemma DateTimeTzParts(s: Text, dt: Text, d: Date, t: TimeOfDay, off: int)
    requires SplitTz(s) == Some((dt, off)) && ParseDateTime(dt) == Some((d, t))
    ensures ParseValue(TDateTimeTz, s) == Some(VDateTimeTz(d, t, off))
  {
    hide SplitTz, ParseDateTime;
  }

  lemma DateTimeTzRoundTrip(d: Date, t: TimeOfDay, off: int)
    requires d.Canonical() && t.Canonical() && CanonicalOffset(off)
    ensures ParseValue(TDateTimeTz, DateText(d) + [84] + TimeText(t) + OffsetText(off)) == Some(VDateTimeTz(d, t, off))
  {
    var dt := DateText(d) + [84] + TimeText(t);
    SplitTzAt(dt, off);
    DateTimeRoundTrip(d, t);
    DateTimeTzParts(dt + OffsetText(off), dt, d, t, off);
  }

  lemma PlainRoundTrip(v: Value)
    requires v.Canonical() && (v.Integer? || v.Unsigned? || v.Dec? || v.Str?)
    ensures ParseValue(v.TypeOf(), ValueText(v)) == Some(v)
  {
    match v {
      case Integer(i) => IntRoundTrip(i);
      case Unsigned(u) => UintRoundTrip(u);
      case Dec(d) => DecimalRoundTrip(d);
      case Str(s) =>
    }
  }

  lemma DateTimeParts(s: Text)
    ensures ParseDate(s).Some? ==> ParseValue(TDate, s) == Some(VDate(ParseDate(s).value))
    ensures ParseTime(s).Some? ==> ParseValue(TTime, s) == Some(VTime(ParseTime(s).value))
    ensures ParseDateTime(s).Some? ==>
      ParseValue(TDateTime, s) == Some(VDateTime(ParseDateTime(s).value.0, ParseDateTime(s).value.1))
  {
    hide ParseDate, ParseTime, ParseDateTime;
  }

  /** Every canonical value of every type reads back from its text. */
  lemma ValueRoundTrip(v: Value)
    requires v.Canonical()
    ensures ParseValue(v.TypeOf(), ValueText(v)) == Some(v)
  {
    hide ParseValue, DateText, TimeText, OffsetText;
    match v {
      case VDateTz(d, off) => DateTzRoundTrip(d, off);
      case VDateTimeTz(d, t, off) => DateTimeTzRoundTrip(d, t, off);
      case VDate(d) =>
        DateRoundTrip(d);
        DateTimeParts(DateText(d));
      case VTime(t) =>
        TimeRoundTrip(t);
        DateTimeParts(TimeText(t));
      case VDateTime(d, t) =>
        DateTimeRoundTrip(d, t);
        DateTimeParts(DateText(d) + [84] + TimeText(t));
      case _ => PlainRoundTrip(v);
    }
  }

  lemma DateTimeRoundTrip(d: Date, t: TimeOfDay)
    requires d.Canonical() && t.Canonical()
    ensures ParseDateTime(DateText(d) + [84] + TimeText(t)) == Some((d, t))
  {
    SplitDtAt(d, TimeText(t));
    DateRoundTrip(d);
    TimeRoundTrip(t);
  }

  // ---- the order of values ---------------------------------------------------------------------------

  function CompareValue(a: Value, b: Value): Ordering {
    if Tag(a.TypeOf()) != Tag(b.TypeOf()) then CompareInt(Tag(a.TypeOf()), Tag(b.TypeOf()))
    else CompareSameType(a, b)
  }

  function CompareSameType(a: Value, b: Value): Ordering {
    match (a, b)
    case (Integer(x), Integer(y)) => CompareBigInt(x, y)
    case (Unsigned(x), Unsigned(y)) => CompareUint(x, y)
    case (Dec(x), Dec(y)) => CompareDecimal(x, y)
    case (Str(x), Str(y)) => CompareDigits(x, y)
    case (VDate(x), VDate(y)) => CompareDate(x, y)
    case (VDateTz(x, ox), VDateTz(y, oy)) => CompareDate(x, y).Then(CompareInt(ox, oy))
    case (VTime(x), VTime(y)) => CompareTime(x, y)
    case (VDateTime(dx, tx), VDateTime(dy, ty)) => CompareDate(dx, dy).Then(CompareTime(tx, ty))
    case (VDateTimeTz(dx, tx, ox), VDateTimeTz(dy, ty, oy)) =>
      CompareDate(dx, dy).Then(CompareTime(tx, ty)).Then(CompareInt(ox, oy))
    case _ => Equal
  }

  /** What makes comparisons of three things those of a total order. */
  predicate Lawful(ab: Ordering, ba: Ordering, bc: Ordering, ac: Ordering, same: bool) {
    && (ab == Equal <==> same) && ba == ab.Reverse()
    && (ab == Less && bc == Less ==> ac == Less)
    && (ab == Equal ==> ac == bc) && (bc == Equal ==> ac == ab)
  }

  lemma {:induction false} TextOrder(a: seq<int>, b: seq<int>, c: seq<int>)
    ensures Lawful(CompareDigits(a, b), CompareDigits(b, a), CompareDigits(b, c), CompareDigits(a, c), a == b)
  {
    if a != [] && b != [] {
      assert a == b <==> a[0] == b[0] && a[1..] == b[1..] by {
        assert a == [a[0]] + a[1..] && b == [b[0]] + b[1..];
      }
      TextOrder(a[1..], b[1..], if c == [] then [] else c[1..]);
    }
    if b != [] && c != [] {
      assert b == c <==> b[0] == c[0] && b[1..] == c[1..] by {
        assert b == [b[0]] + b[1..] && c == [c[0]] + c[1..];
      }
    }
  }

  lemma DateOrder(a: Date, b: Date, c: Date)
    requires a.Canonical() && b.Canonical() && c.Canonical()
    ensures Lawful(CompareDate(a, b), CompareDate(b, a), CompareDate(b, c), CompareDate(a, c), a == b)
  {
    IntOrder(a.year, b.year);
    IntOrder(b.year, a.year);
    IntOrder(b.year, c.year);
    IntOrder(a.year, c.year);
  }

  lemma TimeOrder(a: TimeOfDay, b: TimeOfDay, c: TimeOfDay)
    requires a.Canonical() && b.Canonical() && c.Canonical()
    ensures Lawful(CompareTime(a, b), CompareTime(b, a), CompareTime(b, c), CompareTime(a, c), a == b)
  {
    FracOrder(a.frac, b.frac);
    FracOrder(b.frac, a.frac);
    FracOrder(b.frac, c.frac);
    FracOrder(a.frac, c.frac);
    if FracVal(a.frac) == FracVal(b.frac) {
      FracInjective(a.frac, b.frac);
    }
  }

  /** `cmp` is a total order on canonical values that ties only equal ones. */
  lemma ValueOrder(a: Value, b: Value, c: Value)
    requires a.Canonical() && b.Canonical() && c.Canonical()
    ensures Lawful(CompareValue(a, b), CompareValue(b, a), CompareValue(b, c), CompareValue(a, c), a == b)
  {
    hide CompareSameType, FromTag;
    TagInjective(a.TypeOf(), b.TypeOf());
    TagInjective(b.TypeOf(), c.TypeOf());
    if a.TypeOf() == b.TypeOf() == c.TypeOf() {
      SameTypeOrder(a, b, c);
    } else if a.TypeOf() == b.TypeOf() {
      SameTypeOrder(a, b, b);
    } else if b.TypeOf() == c.TypeOf() {
      SameTypeOrder(b, c, c);
    }
  }

  lemma TagInjective(s: Type, t: Type)
    ensures Tag(s) == Tag(t) ==> s == t
  {
    assert FromTag(Tag(s)) == Some(s) && FromTag(Tag(t)) == Some(t);
  }

  lemma SameTypeOrder(a: Value, b: Value, c: Value)
    requires a.Canonical() && b.Canonical() && c.Canonical()
    requires a.TypeOf() == b.TypeOf() == c.TypeOf()
    ensures Lawful(CompareSameType(a, b), CompareSameType(b, a), CompareSameType(b, c), CompareSameType(a, c), a == b)
  {
    match a {
      case Integer(x) =>
        IntOrder(x, b.i); IntOrder(b.i, x); IntOrder(b.i, c.i); IntOrder(x, c.i);
      case Unsigned(x) =>
        UintOrder(x, b.u); UintOrder(b.u, x); UintOrder(b.u, c.u); UintOrder(x, c.u);
      case Dec(x) =>
        DecimalOrder(x, b.d); DecimalOrder(b.d, x); DecimalOrder(b.d, c.d); DecimalOrder(x, c.d);
      case Str(x) => TextOrder(x, b.s, c.s);
      case VDate(x) => DateOrder(x, b.date, c.date);
      case VDateTz(x, _) => DateOrder(x, b.date, c.date); DateOrder(b.date, c.date, c.date);
      case VTime(x) => TimeOrder(x, b.time, c.time);
      case VDateTime(x, t) =>
        DateOrder(x, b.date, c.date); DateOrder(b.date, c.date, c.date); TimeOrder(t, b.time, c.time);
      case VDateTimeTz(x, t, _) =>
        DateOrder(x, b.date, c.date); DateOrder(b.date, c.date, c.date);
        TimeOrder(t, b.time, c.time); TimeOrder(b.time, c.time, c.time);
    }
  }
}
