/** What a text denotes as a value of each type, read off the text itself; and what the orders order by. */
module Meaning {
  import opened Errors
  import opened Bytes
  import opened Bignum
  import opened TextParts
  import opened Value

  // ---- numbers ----------------------------------------------------------------------------------

  /** A digit run, most significant first, leading zeros allowed. */
  ghost predicate DenotesUint(s: Text, u: BigUint) {
    u.Canonical() && s != [] && AllDigits(s) && u.Value() == Val(DigitsOf(s))
  }

  /** A sign or none. */
  predicate IsSign(sign: Text) {
    sign == [] || sign == [43] || sign == [45]
  }

  ghost predicate DenotesInt(s: Text, v: BigInt) {
    v.Canonical() && exists sign, digits :: SignedInt(s, sign, digits, v)
  }

  ghost predicate SignedInt(s: Text, sign: Text, digits: Text, v: BigInt) {
    && s == sign + digits && IsSign(sign) && digits != [] && AllDigits(digits)
    && v.Value() == if sign == [45] then 0 - Val(DigitsOf(digits)) else Val(DigitsOf(digits))
  }

  /** Digits before and behind a point; one side may be empty, and without a point the second is. */
  ghost predicate DenotesDecimal(s: Text, d: Decimal) {
    d.Canonical() && exists sign, whole, point, frac :: SignedDecimal(s, sign, whole, point, frac, d)
  }

  ghost predicate SignedDecimal(s: Text, sign: Text, whole: Text, point: Text, frac: Text, d: Decimal) {
    && s == sign + (whole + point + frac) && IsSign(sign)
    && (point == [46] || (point == [] && frac == []))
    && AllDigits(whole) && AllDigits(frac) && whole + frac != []
    && var mag := Val(DigitsOf(whole)) as real + FracVal(DigitsOf(frac));
      d.Value() == if sign == [45] then 0.0 - mag else mag
  }

  lemma UintMeans(s: Text, u: BigUint)
    ensures ParseUint(s) == Some(u) <==> DenotesUint(s, u)
  {
    if DenotesUint(s, u) {
      UintOrder(u, ParseUint(s).value);
    }
  }

  lemma IntDenoted(s: Text)
    requires ParseInt(s).Some?
    ensures DenotesInt(s, ParseInt(s).value)
  {
    var signed := s != [] && (s[0] == 45 || s[0] == 43);
    var sign, digits := if signed then s[..1] else [], if signed then s[1..] else s;
    assert s == sign + digits;
    assert SignedInt(s, sign, digits, ParseInt(s).value);
  }

  lemma IntAccepted(s: Text, sign: Text, digits: Text, v: BigInt)
    requires v.Canonical() && SignedInt(s, sign, digits, v)
    ensures ParseInt(s) == Some(v)
  {
    assert sign == [] ==> s == digits && IsDigit(s[0]);
    assert sign != [] ==> s[0] == sign[0] && s[1..] == digits;
    IntOrder(v, ParseInt(s).value);
  }

  lemma IntMeans(s: Text, v: BigInt)
    ensures ParseInt(s) == Some(v) <==> DenotesInt(s, v)
  {
    if ParseInt(s) == Some(v) {
      IntDenoted(s);
    }
    if DenotesInt(s, v) {
      var sign, digits :| SignedInt(s, sign, digits, v);
      IntAccepted(s, sign, digits, v);
    }
  }

  /** What a split cuts apart. */
  lemma SplitOnceParts(s: Text, c: u8)
    ensures var r := SplitOnce(s, c);
      if r.Some? then s == r.value.0 + [c] + r.value.1 && c !in r.value.0 else c !in s
  {
    var i := IndexOf(s, c);
    if i < |s| {
      assert s == s[..i] + [s[i]] + s[i + 1..];
    } else {
      assert s[..i] == s;
    }
  }

  lemma {:induction false} SplitLastParts(s: Text, c: u8)
    ensures var r := SplitLast(s, c);
      if r.Some? then s == r.value.0 + [c] + r.value.1 && c !in r.value.1 else c !in s
  {
    if s != [] {
      var n := |s| - 1;
      assert s == s[..n] + [s[n]];
      SplitLastParts(s[..n], c);
    }
  }

  lemma PartsDenoted(negative: bool, whole: Text, frac: Text)
    ensures DecimalParts(negative, whole, frac).Some? <==> AllDigits(whole) && AllDigits(frac) && whole + frac != []
    ensures DecimalParts(negative, whole, frac).Some? ==>
      var mag := Val(DigitsOf(whole)) as real + FracVal(DigitsOf(frac));
      DecimalParts(negative, whole, frac).value.Value() == if negative then 0.0 - mag else mag
  {
    hide FracVal, TrimFrac;
    assert whole == [] ==> AllDigits(whole) && DigitsOf(whole) == [];
  }

  /** The parts around the point, if there is one, make up the text. */
  lemma PointCut(rest: Text) returns (point: Text)
    ensures var (whole, frac) := CutPoint(rest);
      rest == whole + point + frac && (point == [46] || (point == [] && frac == []))
  {
    SplitOnceParts(rest, 46);
    point := if SplitOnce(rest, 46).Some? then [46] else [];
    assert rest + [] + [] == rest;
  }

  lemma DecimalDenoted(s: Text)
    requires ParseDecimal(s).Some?
    ensures DenotesDecimal(s, ParseDecimal(s).value)
  {
    hide CutPoint, DecimalParts, Decimal.Value;
    var signed := s != [] && (s[0] == 45 || s[0] == 43);
    var sign, rest := if signed then s[..1] else [], if signed then s[1..] else s;
    assert s == sign + rest;
    var point := PointCut(rest);
    var (whole, frac) := CutPoint(rest);
    PartsDenoted(signed && s[0] == 45, whole, frac);
    assert SignedDecimal(s, sign, whole, point, frac, ParseDecimal(s).value);
  }

  lemma DecimalAccepted(s: Text, sign: Text, whole: Text, point: Text, frac: Text, d: Decimal)
    requires d.Canonical() && SignedDecimal(s, sign, whole, point, frac, d)
    ensures ParseDecimal(s) == Some(d)
  {
    hide FracVal, Decimal.Value, DecimalParts;
    var rest := whole + point + frac;
    RestStarts(whole, point, frac);
    assert sign == [] ==> s == rest;
    assert sign != [] ==> s[0] == sign[0] && s[1..] == rest;
    PointFound(whole, point, frac);
    PartsDenoted(sign == [45], whole, frac);
    DecimalOrder(d, DecimalParts(sign == [45], whole, frac).value);
  }

  lemma RestStarts(whole: Text, point: Text, frac: Text)
    requires AllDigits(whole) && AllDigits(frac) && whole + frac != []
    requires point == [46] || (point == [] && frac == [])
    ensures var rest := whole + point + frac; rest != [] && rest[0] != 43 && rest[0] != 45
  {
    var rest := whole + point + frac;
    assert rest[0] == if whole != [] then whole[0] else 46;
  }

  lemma PointFound(whole: Text, point: Text, frac: Text)
    requires AllDigits(whole) && (point == [46] || (point == [] && frac == []))
    ensures CutPoint(whole + point + frac) == (whole, frac)
  {
    NoPunctuation(whole, 46);
    if point == [] {
      assert whole + point + frac == whole;
      IndexOfNone(whole, 46);
    } else {
      SplitOnceAt(whole, 46, frac);
    }
  }

  lemma DecimalMeans(s: Text, d: Decimal)
    ensures ParseDecimal(s) == Some(d) <==> DenotesDecimal(s, d)
  {
    hide ParseDecimal;
    if ParseDecimal(s) == Some(d) {
      DecimalDenoted(s);
    }
    if DenotesDecimal(s, d) {
      var sign, whole, point, frac :| SignedDecimal(s, sign, whole, point, frac, d);
      DecimalAccepted(s, sign, whole, point, frac, d);
    }
  }

  // ---- the calendar -------------------------------------------------------------------------------

  /** Two digits at place `i`. */
  predicate TwoAt(s: Text, i: nat) {
    i + 2 <= |s| && IsDigit(s[i]) && IsDigit(s[i + 1])
  }

  function Num(s: Text, i: nat): nat
    requires TwoAt(s, i)
  {
    10 * (s[i] as int - 48) + (s[i + 1] as int - 48)
  }

  lemma FixedMeans(s: Text, i: nat)
    requires i + 2 <= |s|
    ensures ParseFixed(s[i..i + 2], 2) == if TwoAt(s, i) then Some(Num(s, i)) else None
  {
    var t := s[i..i + 2];
    assert t[0] == s[i] && t[1] == s[i + 1];
    if TwoAt(s, i) {
      var ds := DigitsOf(t);
      assert ds == [t[0] - 48, t[1] - 48];
      assert ds[..1] == [t[0] - 48] && ds[..1][..0] == [];
      assert Val(ds[..1]) == t[0] - 48;
    }
  }

  /** `[-]year-MM-DD`: the last six bytes are the month and the day, all before them the year. */
  ghost predicate DenotesDate(s: Text, d: Date) {
    && d.year.Canonical() && |s| >= 7
    && var n := |s|;
      var minus := if s[0] == 45 then 1 else 0;
      && s[n - 6] == 45 && s[n - 3] == 45 && TwoAt(s, n - 5) && TwoAt(s, n - 2)
      && d.month == Num(s, n - 5) && d.day == Num(s, n - 2)
      && 1 <= d.month <= 12 && 1 <= d.day <= MonthLength(d.year.mag.Value(), d.month)
      && minus < n - 6 && AllDigits(s[minus..n - 6])
      && d.year.Value() == if minus == 1 then 0 - Val(DigitsOf(s[1..n - 6])) else Val(DigitsOf(s[..n - 6]))
  }

  /** 31 and 30 days by turns, July and August both having 31; February has 28, in a leap year 29. */
  ghost function MonthLength(year: nat, month: nat): nat {
    if month == 2 then 28 + LeapsBefore(year + 1) - LeapsBefore(year)
    else 30 + (month + month / 8) % 2
  }

  /** How many of the years from 0 up to `year` are leap years: every fourth, but only every fourth of the hundreds. */
  ghost function LeapsBefore(year: nat): int {
    Multiples(year, 4) - Multiples(year, 100) + Multiples(year, 400)
  }

  /** How many numbers below `n`, 0 among them, are multiples of `m`. */
  ghost function Multiples(n: nat, m: nat): nat
    requires m > 0
  {
    (n + m - 1) / m
  }

  lemma MonthsAgree(year: BigInt, month: u8)
    requires 1 <= month <= 12
    ensures DaysInMonth(year, month) == MonthLength(year.mag.Value(), month)
  {
    hide BigUint.Value;
    var y := year.mag.Value();
    LeapCounted(y);
  }

  lemma LeapCounted(y: nat)
    ensures LeapsBefore(y + 1) - LeapsBefore(y) == if y % 4 == 0 && (y % 100 != 0 || y % 400 == 0) then 1 else 0
  {
    hide Multiples;
    OneMore4(y);
    OneMore100(y);
    OneMore400(y);
    Divides(y);
  }

  lemma OneMore4(y: nat)
    ensures Multiples(y + 1, 4) - Multiples(y, 4) == if y % 4 == 0 then 1 else 0
  {
  }

  lemma OneMore100(y: nat)
    ensures Multiples(y + 1, 100) - Multiples(y, 100) == if y % 100 == 0 then 1 else 0
  {
  }

  lemma OneMore400(y: nat)
    ensures Multiples(y + 1, 400) - Multiples(y, 400) == if y % 400 == 0 then 1 else 0
  {
  }

  lemma Divides(y: nat)
    ensures y % 400 == 0 ==> y % 100 == 0
    ensures y % 100 == 0 ==> y % 4 == 0
  {
    if y % 400 == 0 {
      RemainderIs(y, 4 * (y / 400), 100, 0);
    }
    if y % 100 == 0 {
      RemainderIs(y, 25 * (y / 100), 4, 0);
    }
  }

  // ---- dates ------------------------------------------------------------------------------------------

  lemma DateDenoted(s: Text)
    requires ParseDate(s).Some?
    ensures DenotesDate(s, ParseDate(s).value)
  {
    hide ParseUint, ParseFixed, DaysInMonth, MonthLength, SplitDate, BigInt.Value, Val;
    var neg := s != [] && s[0] == 45;
    var body := if neg then s[1..] else s;
    var (yy, mm, dd) := SplitDate(body).value;
    DateCut(body);
    var n, k := |s|, |s| - |body|;
    TwoWide(mm);
    TwoWide(dd);
    assert body[|yy|] == 45 && body[|yy| + 3] == 45;
    assert s[n - 6] == body[|yy|] && s[n - 3] == body[|yy| + 3];
    assert s[n - 5..n - 5 + 2] == mm && s[n - 2..n - 2 + 2] == dd && s[k..n - 6] == yy;
    FixedMeans(s, n - 5);
    FixedMeans(s, n - 2);
    var d := ParseDate(s).value;
    MonthsAgree(d.year, d.month);
    assert d.year == FromParts(neg, ParseUint(yy).value);
    YearDenoted(yy, neg);
  }

  lemma YearDenoted(yy: Text, neg: bool)
    requires ParseUint(yy).Some?
    ensures AllDigits(yy) && yy != []
    ensures FromParts(neg, ParseUint(yy).value).Value() == if neg then 0 - Val(DigitsOf(yy)) else Val(DigitsOf(yy))
  {
  }

  lemma TwoWide(t: Text)
    requires ParseFixed(t, 2).Some?
    ensures |t| == 2
  {
  }

  lemma DateCut(body: Text)
    requires SplitDate(body).Some?
    ensures var (yy, mm, dd) := SplitDate(body).value; body == yy + [45] + mm + [45] + dd
  {
    SplitLastParts(body, 45);
    SplitLastParts(SplitLast(body, 45).value.0, 45);
  }

  lemma DateAccepted(s: Text, d: Date)
    requires DenotesDate(s, d)
    ensures ParseDate(s) == Some(d)
  {
    hide ParseUint, ParseFixed, DaysInMonth, MonthLength, SplitDate, BigInt.Value, BigInt.Canonical, Val, MakeDate;
    var n := |s|;
    var neg := s[0] == 45;
    var minus := if neg then 1 else 0;
    var body, yy, mm, dd := s[minus..], s[minus..n - 6], s[n - 5..n - 5 + 2], s[n - 2..n - 2 + 2];
    DashedParts(s, minus);
    assert AllDigits(mm) && AllDigits(dd);
    SplitDateAt(yy, mm, dd);
    FixedMeans(s, n - 5);
    FixedMeans(s, n - 2);
    assert !neg ==> body == s && yy == s[..n - 6];
    assert ParseDate(s) == MakeDate(neg, ParseUint(yy), ParseFixed(mm, 2), ParseFixed(dd, 2));
    YearAccepted(yy, neg, d.year);
    MonthsAgree(d.year, d.month);
    DateMade(neg, yy, d);
  }

  lemma DashedParts(s: Text, minus: nat)
    requires |s| >= 6 && minus <= |s| - 6 && s[|s| - 6] == 45 && s[|s| - 3] == 45
    ensures var n := |s|;
      s[minus..] == s[minus..n - 6] + [45] + s[n - 5..n - 5 + 2] + [45] + s[n - 2..n - 2 + 2]
  {
    var n := |s|;
    assert s[minus..] == s[minus..n - 6] + s[n - 6..];
    assert s[n - 6..] == [s[n - 6]] + s[n - 5..n - 3] + [s[n - 3]] + s[n - 2..];
  }

  lemma DateMade(neg: bool, yy: Text, d: Date)
    requires ParseUint(yy).Some? && d.year == FromParts(neg, ParseUint(yy).value)
    requires 1 <= d.month <= 12 && 1 <= d.day <= DaysInMonth(d.year, d.month)
    ensures MakeDate(neg, ParseUint(yy), Some(d.month), Some(d.day)) == Some(d)
  {
  }

  lemma YearAccepted(yy: Text, neg: bool, year: BigInt)
    requires year.Canonical() && yy != [] && AllDigits(yy)
    requires year.Value() == if neg then 0 - Val(DigitsOf(yy)) else Val(DigitsOf(yy))
    ensures ParseUint(yy).Some? && year == FromParts(neg, ParseUint(yy).value)
  {
    IntOrder(year, FromParts(neg, ParseUint(yy).value));
  }

  lemma DateMeans(s: Text, d: Date)
    ensures ParseDate(s) == Some(d) <==> DenotesDate(s, d)
  {
    hide ParseDate, DenotesDate;
    if ParseDate(s) == Some(d) {
      DateDenoted(s);
    }
    if DenotesDate(s, d) {
      DateAccepted(s, d);
    }
  }

  // ---- times ------------------------------------------------------------------------------------------

  /** `HH:MM:SS`, and a point and digits if there is a fraction. */
  ghost predicate DenotesTime(s: Text, t: TimeOfDay) {
    && |s| >= 8 && s[2] == 58 && s[5] == 58 && TwoAt(s, 0) && TwoAt(s, 3) && TwoAt(s, 6)
    && Num(s, 0) < 24 && Num(s, 3) < 60 && Num(s, 6) < 60
    && t.secs == 3600 * Num(s, 0) + 60 * Num(s, 3) + Num(s, 6)
    && CanonicalFrac(t.frac)
    && if |s| == 8 then t.frac == []
       else s[8] == 46 && |s| > 9 && AllDigits(s[9..]) && FracVal(t.frac) == FracVal(DigitsOf(s[9..]))
  }

  ghost predicate DenotesHms(s: Text, secs: nat) {
    && |s| == 8 && s[2] == 58 && s[5] == 58 && TwoAt(s, 0) && TwoAt(s, 3) && TwoAt(s, 6)
    && Num(s, 0) < 24 && Num(s, 3) < 60 && Num(s, 6) < 60
    && secs == 3600 * Num(s, 0) + 60 * Num(s, 3) + Num(s, 6)
  }

  /** Three parts between colons make up the text. */
  lemma ThreeParts(s: Text)
    requires |Split(s, 58)| == 3
    ensures var p := Split(s, 58); s == p[0] + [58] + p[1] + [58] + p[2]
  {
    SplitOnceParts(s, 58);
    var i := IndexOf(s, 58);
    var rest := s[i + 1..];
    SplitOnceParts(rest, 58);
    var j := IndexOf(rest, 58);
    assert Split(s, 58) == [s[..i]] + Split(rest, 58);
    assert Split(rest, 58) == [rest[..j]] + Split(rest[j + 1..], 58);
    LastPart(rest[j + 1..]);
  }

  lemma LastPart(s: Text)
    ensures |Split(s, 58)| == 1 ==> Split(s, 58) == [s]
  {
    var i := IndexOf(s, 58);
    if i < |s| {
      SomePart(s[i + 1..]);
    }
  }

  lemma SomePart(s: Text)
    ensures |Split(s, 58)| >= 1
  {
  }

  lemma HmsDenoted(s: Text)
    requires ParseHms(s).Some?
    ensures DenotesHms(s, ParseHms(s).value)
  {
    hide ParseFixed, Split, Num;
    var p := Split(s, 58);
    ThreeParts(s);
    TwoWide(p[0]);
    TwoWide(p[1]);
    TwoWide(p[2]);
    assert s[0..2] == p[0] && s[3..3 + 2] == p[1] && s[6..6 + 2] == p[2];
    assert s[2] == 58 && s[5] == 58;
    FixedMeans(s, 0);
    FixedMeans(s, 3);
    FixedMeans(s, 6);
  }

  lemma HmsAccepted(s: Text, secs: nat)
    requires DenotesHms(s, secs)
    ensures ParseHms(s) == Some(secs) && 46 !in s
  {
    hide ParseFixed, Num, Split;
    var h, m, c := s[0..0 + 2], s[3..3 + 2], s[6..6 + 2];
    assert s == h + [58] + (m + [58] + c);
    NoPunctuation(h, 58);
    NoPunctuation(m, 58);
    NoPunctuation(c, 58);
    SplitAt(h, 58, m + [58] + c);
    SplitAt(m, 58, c);
    LastSplit(c);
    FixedMeans(s, 0);
    FixedMeans(s, 3);
    FixedMeans(s, 6);
  }

  lemma LastSplit(s: Text)
    requires 58 !in s
    ensures Split(s, 58) == [s]
  {
    IndexOfNone(s, 58);
  }

  lemma TimeDenoted(s: Text)
    requires ParseTime(s).Some?
    ensures DenotesTime(s, ParseTime(s).value)
  {
    hide ParseHms, TrimFrac, FracVal, Num;
    SplitOnceParts(s, 46);
    var cut := SplitOnce(s, 46);
    if cut.None? {
      HmsDenoted(s);
      assert TrimFrac([]) == [] by { TrimCanonical([]); }
    } else {
      var (hms, frac) := cut.value;
      HmsDenoted(hms);
      assert s[9..] == frac && s[..8] == hms;
      SamePlaces(s, hms);
      TrimKeepsValue(DigitsOf(frac));
    }
  }

  /** The digits at the front of a text are those of the front. */
  lemma SamePlaces(s: Text, hms: Text)
    requires |hms| == 8 <= |s| && s[..8] == hms && TwoAt(hms, 0) && TwoAt(hms, 3) && TwoAt(hms, 6)
    ensures s[2] == hms[2] && s[5] == hms[5] && TwoAt(s, 0) && TwoAt(s, 3) && TwoAt(s, 6)
    ensures Num(s, 0) == Num(hms, 0) && Num(s, 3) == Num(hms, 3) && Num(s, 6) == Num(hms, 6)
  {
    assert forall k :: 0 <= k < 8 ==> s[k] == hms[k];
  }

  lemma TimeAccepted(s: Text, t: TimeOfDay)
    requires DenotesTime(s, t)
    ensures ParseTime(s) == Some(t)
  {
    hide ParseHms, TrimFrac, FracVal, Num;
    var hms := s[..8];
    assert forall k :: 0 <= k < 8 ==> s[k] == hms[k];
    assert TwoAt(hms, 0) && TwoAt(hms, 3) && TwoAt(hms, 6);
    SamePlaces(s, hms);
    HmsAccepted(hms, t.secs);
    if |s| == 8 {
      assert s == hms;
      IndexOfNone(s, 46);
      TrimCanonical([]);
    } else {
      var frac := s[9..];
      assert s == hms + [46] + frac;
      SplitOnceAt(hms, 46, frac);
      TrimKeepsValue(DigitsOf(frac));
      FracInjective(TrimFrac(DigitsOf(frac)), t.frac);
    }
  }

  lemma TimeMeans(s: Text, t: TimeOfDay)
    ensures ParseTime(s) == Some(t) <==> DenotesTime(s, t)
  {
    hide ParseTime, DenotesTime;
    if ParseTime(s) == Some(t) {
      TimeDenoted(s);
    }
    if DenotesTime(s, t) {
      TimeAccepted(s, t);
    }
  }

  // ---- zones ------------------------------------------------------------------------------------------

  /** `Z` or `z` for none, or `+HH:MM` or `-HH:MM`, in minutes. */
  ghost predicate DenotesOffset(z: Text, off: int) {
    || ((z == [90] || z == [122]) && off == 0)
    || (&& |z| == 6 && (z[0] == 43 || z[0] == 45) && z[3] == 58 && TwoAt(z, 1) && TwoAt(z, 4)
        && Num(z, 1) < 24 && Num(z, 4) < 60
        && off == if z[0] == 45 then 0 - (60 * Num(z, 1) + Num(z, 4)) else 60 * Num(z, 1) + Num(z, 4))
  }

  lemma OffsetMeans(z: Text, off: int)
    ensures ParseOffset(z) == Some(off) <==> DenotesOffset(z, off)
  {
    hide ParseFixed, Num, SplitOnce;
    if z != [] && (z[0] == 43 || z[0] == 45) {
      SplitOnceParts(z[1..], 58);
      if ParseOffset(z).Some? {
        var (hh, mm) := SplitOnce(z[1..], 58).value;
        TwoWide(hh);
        TwoWide(mm);
        assert z[1..1 + 2] == hh && z[4..4 + 2] == mm && z[3] == z[1..][2];
        FixedMeans(z, 1);
        FixedMeans(z, 4);
      }
      if DenotesOffset(z, off) {
        var hh, mm := z[1..1 + 2], z[4..4 + 2];
        assert z[1..] == hh + [58] + mm;
        NoPunctuation(hh, 58);
        SplitOnceAt(hh, 58, mm);
        FixedMeans(z, 1);
        FixedMeans(z, 4);
      }
    }
  }

  /** The zone is whatever suffix denotes one. */
  lemma TzCut(s: Text, p: nat, off: int)
    requires p <= |s| && DenotesOffset(s[p..], off)
    ensures SplitTz(s) == Some((s[..p], off))
  {
    hide Num, ParseOffset;
    OffsetMeans(s[p..], off);
    var z := s[p..];
    assert s[|s| - 1] == z[|z| - 1];
    if |z| == 6 {
      assert s[|s| - 6] == z[0] && s[|s| - 6..] == z;
    } else {
      assert |s| - 1 == p;
    }
  }

  lemma TzWasCut(s: Text)
    requires SplitTz(s).Some?
    ensures var (front, off) := SplitTz(s).value;
      |front| <= |s| && front == s[..|front|] && DenotesOffset(s[|front|..], off)
  {
    hide Num, ParseOffset;
    var n := |s| - 1;
    if s[n] == 90 || s[n] == 122 {
      assert s[n..] == [s[n]];
    } else {
      OffsetMeans(s[|s| - 6..], SplitTz(s).value.1);
    }
  }

  // ---- dates with times and zones -----------------------------------------------------------------------

  ghost predicate DenotesDateTz(s: Text, d: Date, off: int) {
    exists p: nat :: ZonedAt(s, p, off) && DenotesDate(s[..p], d)
  }

  /** The zone stands behind the first `p` bytes. */
  ghost predicate ZonedAt(s: Text, p: nat, off: int) {
    p <= |s| && DenotesOffset(s[p..], off)
  }

  /** A date, a `T` or a space, and a time. */
  ghost predicate DenotesDateTime(s: Text, d: Date, t: TimeOfDay) {
    exists p: nat :: DateTimeAt(s, p, d, t)
  }

  ghost predicate DateTimeAt(s: Text, p: nat, d: Date, t: TimeOfDay) {
    p < |s| && (s[p] == 84 || s[p] == 32) && DenotesDate(s[..p], d) && DenotesTime(s[p + 1..], t)
  }

  ghost predicate DenotesDateTimeTz(s: Text, d: Date, t: TimeOfDay, off: int) {
    exists p: nat :: ZonedAt(s, p, off) && DenotesDateTime(s[..p], d, t)
  }

  /** Neither a date nor a time has a `T` or a space in it. */
  lemma NoSeparator(s: Text, c: u8)
    requires c == 84 || c == 32
    ensures (exists d :: DenotesDate(s, d)) ==> c !in s
    ensures (exists t :: DenotesTime(s, t)) ==> c !in s
  {
    if d :| DenotesDate(s, d) {
      var n, minus := |s|, if s[0] == 45 then 1 else 0;
      forall k | 0 <= k < n
        ensures s[k] != c
      {
        if minus <= k < n - 6 {
          assert s[k] == s[minus..n - 6][k - minus];
        }
      }
    }
    if t :| DenotesTime(s, t) {
      forall k | 0 <= k < |s|
        ensures s[k] != c
      {
        if k >= 9 {
          assert s[k] == s[9..][k - 9];
        }
      }
    }
  }

  lemma DateTimeCut(s: Text, p: nat, d: Date, t: TimeOfDay)
    requires DateTimeAt(s, p, d, t)
    ensures SplitDt(s) == Some((s[..p], s[p + 1..]))
  {
    hide DenotesDate, DenotesTime;
    var a, b := s[..p], s[p + 1..];
    assert s == a + [s[p]] + b;
    NoSeparator(a, 84);
    NoSeparator(a, 32);
    NoSeparator(b, 84);
    if s[p] == 84 {
      SplitOnceAt(a, 84, b);
    } else {
      IndexOfNone(s, 84);
      SplitOnceAt(a, 32, b);
    }
  }

  lemma DateTimeMeans(s: Text, d: Date, t: TimeOfDay)
    ensures ParseDateTime(s) == Some((d, t)) <==> DenotesDateTime(s, d, t)
  {
    hide ParseDate, ParseTime, DenotesDate, DenotesTime;
    if ParseDateTime(s) == Some((d, t)) {
      SplitOnceParts(s, 84);
      SplitOnceParts(s, 32);
      var (a, b) := SplitDt(s).value;
      assert s[..|a|] == a && s[|a| + 1..] == b;
      DateMeans(a, d);
      TimeMeans(b, t);
      assert DateTimeAt(s, |a|, d, t);
    }
    if DenotesDateTime(s, d, t) {
      var p: nat :| DateTimeAt(s, p, d, t);
      DateTimeCut(s, p, d, t);
      DateMeans(s[..p], d);
      TimeMeans(s[p + 1..], t);
    }
  }

  /** What a text denotes in a column of type `ty`. */
  ghost predicate Denotes(ty: Type, s: Text, v: Value) {
    v.TypeOf() == ty && match v
      case Integer(i) => DenotesInt(s, i)
      case Unsigned(u) => DenotesUint(s, u)
      case Dec(d) => DenotesDecimal(s, d)
      case Str(t) => t == s
      case VDate(d) => DenotesDate(s, d)
      case VDateTz(d, off) => DenotesDateTz(s, d, off)
      case VTime(t) => DenotesTime(s, t)
      case VDateTime(d, t) => DenotesDateTime(s, d, t)
      case VDateTimeTz(d, t, off) => DenotesDateTimeTz(s, d, t, off)
  }

  lemma DateTzMeans(s: Text, d: Date, off: int)
    ensures ParseValue(TDateTz, s) == Some(VDateTz(d, off)) <==> DenotesDateTz(s, d, off)
  {
    hide ParseDate, SplitTz, DenotesDate, DenotesOffset;
    if ParseValue(TDateTz, s) == Some(VDateTz(d, off)) {
      TzWasCut(s);
      var p := |SplitTz(s).value.0|;
      DateMeans(s[..p], d);
      assert ZonedAt(s, p, off);
    }
    if DenotesDateTz(s, d, off) {
      var p: nat :| ZonedAt(s, p, off) && DenotesDate(s[..p], d);
      TzCut(s, p, off);
      DateMeans(s[..p], d);
    }
  }

  lemma DateTimeTzMeans(s: Text, d: Date, t: TimeOfDay, off: int)
    ensures ParseValue(TDateTimeTz, s) == Some(VDateTimeTz(d, t, off)) <==> DenotesDateTimeTz(s, d, t, off)
  {
    hide ParseDateTime, SplitTz, DenotesDateTime, DenotesOffset;
    if ParseValue(TDateTimeTz, s) == Some(VDateTimeTz(d, t, off)) {
      TzWasCut(s);
      var p := |SplitTz(s).value.0|;
      DateTimeMeans(s[..p], d, t);
      assert ZonedAt(s, p, off);
    }
    if DenotesDateTimeTz(s, d, t, off) {
      var p: nat :| ZonedAt(s, p, off) && DenotesDateTime(s[..p], d, t);
      TzCut(s, p, off);
      DateTimeMeans(s[..p], d, t);
    }
  }

  /** A text is read as a value exactly when it denotes it; so it is refused exactly when it denotes none. */
  lemma ParseMeans(ty: Type, s: Text, v: Value)
    ensures ParseValue(ty, s) == Some(v) <==> Denotes(ty, s, v)
  {
    hide ParseInt, ParseUint, ParseDecimal, ParseDate, ParseTime, ParseDateTime, SplitTz, DenotesInt, DenotesUint,
      DenotesDecimal, DenotesDate, DenotesTime, DenotesDateTime, DenotesDateTz, DenotesDateTimeTz;
    match v
    case Integer(i) => IntMeans(s, i);
    case Unsigned(u) => UintMeans(s, u);
    case Dec(d) => DecimalMeans(s, d);
    case Str(_) =>
    case VDate(d) => DateMeans(s, d);
    case VDateTz(d, off) => DateTzMeans(s, d, off);
    case VTime(t) => TimeMeans(s, t);
    case VDateTime(d, t) => DateTimeMeans(s, d, t);
    case VDateTimeTz(d, t, off) => DateTimeTzMeans(s, d, t, off);
  }

  // ---- how values are shown -------------------------------------------------------------------------------

  /** No leading zero but a lone one. */
  predicate PlainDigits(t: Text) {
    t != [] && AllDigits(t) && (|t| == 1 || t[0] != 48)
  }

  /** A minus sign exactly for what is negative, and never a plus sign. */
  function Unsigned_(s: Text, negative: bool): Text {
    if negative && s != [] && s[0] == 45 then s[1..] else s
  }

  ghost predicate PlainDate(s: Text) {
    |s| >= 7 && var yy := s[(if s[0] == 45 then 1 else 0)..|s| - 6]; |yy| >= 4 && (|yy| > 4 ==> yy[0] != 48)
  }

  ghost predicate PlainTime(s: Text) {
    |s| >= 8 && (|s| > 8 ==> s[|s| - 1] != 48)
  }

  /** Digits without a leading zero, and behind a point digits without a trailing one. */
  ghost predicate PlainDecimal(s: Text) {
    || PlainDigits(s)
    || exists p :: 0 <= p < |s| - 1 && s[p] == 46 && PlainDigits(s[..p]) && s[|s| - 1] != 48
  }

  /** The spelling a value is shown in: no needless sign or zero, years of at least four digits, `T` before a time, and
      a zone always in hours and minutes. */
  ghost predicate Plain(v: Value, s: Text) {
    match v
    case Integer(i) => PlainDigits(Unsigned_(s, i.Value() < 0))
    case Unsigned(_) => PlainDigits(s)
    case Dec(d) => PlainDecimal(Unsigned_(s, d.Value() < 0.0))
    case Str(t) => s == t
    case VDate(_) => PlainDate(s)
    case VDateTz(_, off) => |s| >= 6 && PlainDate(s[..|s| - 6]) && s[|s| - 6] == (if off < 0 then 45 else 43)
    case VTime(_) => PlainTime(s)
    case VDateTime(_, _) => PlainDateTime(s)
    case VDateTimeTz(_, _, off) =>
      |s| >= 6 && PlainDateTime(s[..|s| - 6]) && s[|s| - 6] == (if off < 0 then 45 else 43)
  }

  ghost predicate PlainDateTime(s: Text) {
    exists p :: PlainHalves(s, p)
  }

  ghost predicate PlainHalves(s: Text, p: nat) {
    p < |s| && s[p] == 84 && PlainDate(s[..p]) && PlainTime(s[p + 1..])
  }

  lemma UintPlain(u: BigUint)
    requires u.Canonical()
    ensures PlainDigits(UintText(u))
  {
    if u.digits != [] {
      assert UintText(u)[0] == DigitByte(u.digits[0]);
    }
  }

  lemma DatePlain(d: Date)
    requires d.Canonical()
    ensures PlainDate(DateText(d))
  {
    var t, yy := UintText(d.year.mag), YearText(d.year.mag);
    UintPlain(d.year.mag);
    ZerosLength(4 - |t|);
    var s, minus := DateText(d), if d.year.negative then 1 else 0;
    var tail := [45] + Push2(d.month) + [45] + Push2(d.day);
    assert s == (if d.year.negative then [45] else []) + yy + tail;
    assert s[minus..|s| - 6] == yy;
    assert !d.year.negative ==> s[0] == yy[0];
  }

  lemma {:induction false} ZerosLength(n: int)
    ensures |Zeros(n)| == if n <= 0 then 0 else n
  {
    if n > 0 {
      ZerosLength(n - 1);
    }
  }

  lemma TimePlain(t: TimeOfDay)
    requires t.Canonical()
    ensures PlainTime(TimeText(t))
  {
    var s := TimeText(t);
    if t.frac != [] {
      assert s[|s| - 1] == TextOf(t.frac)[|t.frac| - 1];
      assert TextOf(t.frac)[|t.frac| - 1] == DigitByte(t.frac[|t.frac| - 1]);
    }
  }

  lemma DecimalPlain(d: Decimal)
    requires d.Canonical()
    ensures PlainDecimal(Unsigned_(DecimalText(d), d.Value() < 0.0))
  {
    hide Decimal.Value, FracText, PlainDecimal, UintText;
    DecimalSign(d);
    UintPlain(d.int_);
    var body := UintText(d.int_) + FracText(d.frac);
    assert DecimalText(d) == (if d.negative then [45] else []) + body;
    SignCut(d.negative, body);
    FracPlain(UintText(d.int_), d.frac);
  }

  lemma FracPlain(whole: Text, f: seq<Digit>)
    requires PlainDigits(whole) && CanonicalFrac(f)
    ensures PlainDecimal(whole + FracText(f))
  {
    var s := whole + FracText(f);
    if f == [] {
      assert s == whole;
    } else {
      assert s == whole + [46] + TextOf(f);
      assert s[..|whole|] == whole && s[|whole|] == 46;
      assert s[|s| - 1] == TextOf(f)[|f| - 1] == DigitByte(f[|f| - 1]);
    }
  }

  lemma IntPlain(i: BigInt)
    requires i.Canonical()
    ensures PlainDigits(Unsigned_(IntText(i), i.Value() < 0))
  {
    UintPlain(i.mag);
    ValBound(i.mag.digits);
    assert i.negative ==> IntText(i)[1..] == UintText(i.mag);
    assert !i.negative ==> IntText(i) == UintText(i.mag);
  }

  lemma HalvesPlain(d: Date, t: TimeOfDay)
    requires d.Canonical() && t.Canonical()
    ensures PlainDateTime(DateText(d) + [84] + TimeText(t))
  {
    hide DateText, TimeText, PlainDate, PlainTime;
    DatePlain(d);
    TimePlain(t);
    var s, p := DateText(d) + [84] + TimeText(t), |DateText(d)|;
    assert s[..p] == DateText(d) && s[p] == 84 && s[p + 1..] == TimeText(t);
    assert PlainHalves(s, p);
  }

  /** A value is shown by a text that denotes it, in its plain spelling. */
  lemma ShownPlain(v: Value)
    requires v.Canonical()
    ensures Denotes(v.TypeOf(), ValueText(v), v) && Plain(v, ValueText(v))
  {
    hide Denotes, ParseValue, DateText, TimeText, OffsetText, PlainDate, PlainTime, PlainDecimal, PlainDigits,
      PlainDateTime, Unsigned_;
    ValueRoundTrip(v);
    ParseMeans(v.TypeOf(), ValueText(v), v);
    var s := ValueText(v);
    match v {
      case Integer(i) => IntPlain(i);
      case Unsigned(u) => UintPlain(u);
      case Dec(d) => DecimalPlain(d);
      case Str(_) =>
      case VDate(d) => DatePlain(d);
      case VDateTz(d, off) =>
        DatePlain(d);
        assert s[..|s| - 6] == DateText(d) && s[|s| - 6] == OffsetText(off)[0];
      case VTime(t) => TimePlain(t);
      case VDateTime(d, t) => HalvesPlain(d, t);
      case VDateTimeTz(d, t, off) =>
        HalvesPlain(d, t);
        assert s[..|s| - 6] == DateText(d) + [84] + TimeText(t) && s[|s| - 6] == OffsetText(off)[0];
    }
  }

  // ---- what comes first -------------------------------------------------------------------------------------

  ghost predicate EarlierDate(a: Date, b: Date) {
    || a.year.Value() < b.year.Value()
    || (a.year == b.year && (a.month < b.month || (a.month == b.month && a.day < b.day)))
  }

  ghost function SecondsOf(t: TimeOfDay): real {
    t.secs as real + FracVal(t.frac)
  }

  /** Up to some place the texts agree, and there `a` ends or has the smaller byte. */
  ghost predicate BeforeText(a: Text, b: Text) {
    exists k :: PartsAt(a, b, k)
  }

  ghost predicate PartsAt(a: Text, b: Text, k: nat) {
    k <= |a| && k < |b| && a[..k] == b[..k] && (k == |a| || a[k] < b[k])
  }

  /** Numbers by their size, texts byte by byte, dates and times by which is earlier; zoned values by what they show
      and only then by the zone. */
  ghost predicate ComesBefore(a: Value, b: Value) {
    match (a, b)
    case (Integer(x), Integer(y)) => x.Value() < y.Value()
    case (Unsigned(x), Unsigned(y)) => x.Value() < y.Value()
    case (Dec(x), Dec(y)) => x.Value() < y.Value()
    case (Str(x), Str(y)) => BeforeText(x, y)
    case (VDate(x), VDate(y)) => EarlierDate(x, y)
    case (VDateTz(x, ox), VDateTz(y, oy)) => EarlierDate(x, y) || (x == y && ox < oy)
    case (VTime(x), VTime(y)) => SecondsOf(x) < SecondsOf(y)
    case (VDateTime(dx, tx), VDateTime(dy, ty)) => EarlierDate(dx, dy) || (dx == dy && SecondsOf(tx) < SecondsOf(ty))
    case (VDateTimeTz(dx, tx, ox), VDateTimeTz(dy, ty, oy)) =>
      EarlierDate(dx, dy) || (dx == dy && (SecondsOf(tx) < SecondsOf(ty) || (tx == ty && ox < oy)))
    case _ => false
  }

  lemma DateLess(a: Date, b: Date)
    requires a.Canonical() && b.Canonical()
    ensures CompareDate(a, b).Less? <==> EarlierDate(a, b)
    ensures CompareDate(a, b).Equal? <==> a == b
  {
    IntOrder(a.year, b.year);
  }

  lemma TimeLess(a: TimeOfDay, b: TimeOfDay)
    requires a.Canonical() && b.Canonical()
    ensures CompareTime(a, b).Less? <==> SecondsOf(a) < SecondsOf(b)
    ensures CompareTime(a, b).Equal? <==> a == b
  {
    FracOrder(a.frac, b.frac);
    if a.secs == b.secs && FracVal(a.frac) == FracVal(b.frac) {
      FracInjective(a.frac, b.frac);
    }
    if a.secs < b.secs {
      assert a.secs as real + 1.0 <= b.secs as real;
    } else if b.secs < a.secs {
      assert b.secs as real + 1.0 <= a.secs as real;
    }
  }

  lemma {:induction false} TextLess(a: Text, b: Text)
    ensures CompareDigits(a, b).Less? <==> BeforeText(a, b)
  {
    if a == [] {
      assert b != [] ==> PartsAt(a, b, 0);
    } else if b != [] {
      var s, t := a[1..], b[1..];
      TextLess(s, t);
      if a[0] < b[0] {
        assert PartsAt(a, b, 0);
      }
      if a[0] == b[0] && BeforeText(s, t) {
        var k: nat :| PartsAt(s, t, k);
        assert a[..k + 1] == [a[0]] + s[..k] && b[..k + 1] == [b[0]] + t[..k];
        assert PartsAt(a, b, k + 1);
      }
      if BeforeText(a, b) {
        var k: nat :| PartsAt(a, b, k);
        if k > 0 {
          assert a[0] == a[..k][0] == b[..k][0] == b[0];
          assert s[..k - 1] == a[..k][1..] && t[..k - 1] == b[..k][1..];
          assert PartsAt(s, t, k - 1);
        }
      }
    }
  }

  /** `cmp` says `Less` exactly when the first value comes before the second. */
  lemma LessMeans(a: Value, b: Value)
    requires a.Canonical() && b.Canonical() && a.TypeOf() == b.TypeOf()
    ensures CompareValue(a, b).Less? <==> ComesBefore(a, b)
  {
    hide CompareDate, CompareTime, CompareDigits, BeforeText, EarlierDate, SecondsOf, CompareBigInt, CompareUint,
      CompareDecimal;
    match a {
      case Integer(x) => IntOrder(x, b.i);
      case Unsigned(x) => UintOrder(x, b.u);
      case Dec(x) => DecimalOrder(x, b.d);
      case Str(x) => TextLess(x, b.s);
      case VDate(x) => DateLess(x, b.date);
      case VDateTz(x, _) => DateLess(x, b.date);
      case VTime(x) => TimeLess(x, b.time);
      case VDateTime(x, t) =>
        DateLess(x, b.date);
        TimeLess(t, b.time);
      case VDateTimeTz(x, t, _) =>
        DateLess(x, b.date);
        TimeLess(t, b.time);
    }
  }
}
