/**
 * JavaScript dates as the task store persists them: a time value (whole
 * milliseconds since 1970-01-01T00:00:00Z, within the range ECMA-262 allows,
 * plus or minus 8.64e15) and its text in the Date Time String Format of
 * ECMA-262, section 21.4.1.32 (`YYYY-MM-DDTHH:mm:ss.sssZ`, or an expanded
 * year `+YYYYYY` / `-YYYYYY` outside 0..9999), as `Date.prototype.toISOString`
 * writes it and `new Date(text)` reads it back.
 *
 * The calendar reference definitions (DayFromYear, DaysInYear, MakeDay,
 * MakeTime, MakeDate) follow sections 21.4.1.5 to 21.4.1.29 of ECMA-262.
 * The conversion from a day number to a calendar date is written as an
 * explicit decomposition into 400-year eras, centuries, four-year groups and
 * years, each counted from the first of March so that the leap day falls
 * last, and is proved to invert MakeDay.
 */
module IsoDate {
  import opened Digits

  datatype Option<T> = None | Some(value: T)

  /** The largest magnitude of a time value (section 21.4.1.1): 10^8 days. */
  const MaxTimeValue: int := 8640000000000000

  type TimeValue = t: int | -MaxTimeValue <= t <= MaxTimeValue

  // ---------------------------------------------------------------------
  // Reference calendar of ECMA-262 (proleptic Gregorian, UTC)
  // ---------------------------------------------------------------------

  predicate InLeapYear(y: int) {
    y % 4 == 0 && (y % 100 != 0 || y % 400 == 0)
  }

  function DaysInYear(y: int): int {
    if InLeapYear(y) then 366 else 365
  }

  /** Day number of the first of January of year `y` (DayFromYear, section 21.4.1.6). */
  function DayFromYear(y: int): int {
    365 * (y - 1970) + (y - 1969) / 4 - (y - 1901) / 100 + (y - 1601) / 400
  }

  /** Days in month `m` (1 = January) of year `y`. */
  function DaysInMonth(y: int, m: int): int
    requires 1 <= m <= 12
  {
    if m == 2 then (if InLeapYear(y) then 29 else 28)
    else if m == 4 || m == 6 || m == 9 || m == 11 then 30
    else 31
  }

  /** Days of year `y` before the first of month `m`. */
  function DaysBeforeMonth(y: int, m: int): int
    requires 1 <= m <= 12
  {
    [0, 31, 59, 90, 120, 151, 181, 212, 243, 273, 304, 334][m - 1]
      + (if m > 2 && InLeapYear(y) then 1 else 0)
  }

  predicate ValidDate(y: int, m: int, d: int) {
    1 <= m <= 12 && 1 <= d <= DaysInMonth(y, m)
  }

  /** Day number of a calendar date (MakeDay, section 21.4.1.28). */
  function MakeDay(y: int, m: int, d: int): int
    requires 1 <= m <= 12
  {
    DayFromYear(y) + DaysBeforeMonth(y, m) + d - 1
  }

  /** Milliseconds into the day (MakeTime, section 21.4.1.27). */
  function MakeTime(h: int, mi: int, s: int, ms: int): int {
    h * 3600000 + mi * 60000 + s * 1000 + ms
  }

  /** MakeDate, section 21.4.1.29: 86400000 milliseconds per day. */
  function MakeDate(day: int, time: int): int {
    day * 86400000 + time
  }

  /** The broken-down UTC fields of a time value. */
  datatype DateTime = DateTime(year: int, month: int, day: int,
                               hour: int, minute: int, second: int, millisecond: int)

  predicate Canonical(f: DateTime) {
    && ValidDate(f.year, f.month, f.day)
    && 0 <= f.hour < 24 && 0 <= f.minute < 60 && 0 <= f.second < 60
    && 0 <= f.millisecond < 1000
  }

  function TimeOf(f: DateTime): int
    requires 1 <= f.month <= 12
  {
    MakeDate(MakeDay(f.year, f.month, f.day), MakeTime(f.hour, f.minute, f.second, f.millisecond))
  }

  // ---------------------------------------------------------------------
  // Facts about the reference calendar
  // ---------------------------------------------------------------------

  /** Day number, counted from 0000-03-01, of the first of March of year `y`. */
  function MarchYearStart(y: int): int {
    365 * y + y / 4 - y / 100 + y / 400
  }

  /** Length of the year that runs from the first of March of `y`. */
  function MarchYearLength(y: int): int {
    DaysInYear(y + 1)
  }

  lemma DayFromYearMarch(y: int)
    ensures DayFromYear(y) == MarchYearStart(y - 1) + 306 - 719468
  {
    assert (y - 1969) / 4 == (y - 1) / 4 - 492;
    assert (y - 1901) / 100 == (y - 1) / 100 - 19;
    assert (y - 1601) / 400 == (y - 1) / 400 - 4;
  }

  lemma MarchYearStartEra(era: int, k: int)
    ensures MarchYearStart(400 * era + k) == 146097 * era + MarchYearStart(k)
  {
    assert (400 * era + k) / 4 == 100 * era + k / 4;
    assert (400 * era + k) / 100 == 4 * era + k / 100;
    assert (400 * era + k) / 400 == era + k / 400;
  }

  lemma LeapEra(era: int, k: int)
    ensures InLeapYear(400 * era + k) == InLeapYear(k)
  {
    var a := 400 * era + k;
    assert a / 4 == 100 * era + k / 4;
    assert a % 4 == k % 4;
    assert a / 100 == 4 * era + k / 100;
    assert a % 100 == k % 100;
    assert a / 400 == era + k / 400;
    assert a % 400 == k % 400;
  }

  lemma MarchYearStep(y: int)
    ensures MarchYearStart(y + 1) == MarchYearStart(y) + MarchYearLength(y)
  {
    var z := y + 1;
    DivStep(y, 4);
    DivStep(y, 100);
    DivStep(y, 400);
    if z % 400 == 0 {
      assert z == 100 * (4 * (z / 400));
      assert z == 4 * (100 * (z / 400));
    } else if z % 100 == 0 {
      assert z == 4 * (25 * (z / 100));
    }
  }

  /**
   * Going from `y` to `y + 1` raises `y / n` by one exactly when `n` divides
   * `y + 1`, for the divisors of the leap-year rule.
   */
  lemma DivStep(y: int, n: int)
    requires n == 4 || n == 100 || n == 400
    ensures (y + 1) / n - y / n == (if (y + 1) % n == 0 then 1 else 0)
  {
    if n == 4 {
      if y % 4 == 3 { assert (y + 1) / 4 == y / 4 + 1; } else { assert (y + 1) / 4 == y / 4; }
    } else if n == 100 {
      if y % 100 == 99 { assert (y + 1) / 100 == y / 100 + 1; } else { assert (y + 1) / 100 == y / 100; }
    } else {
      if y % 400 == 399 { assert (y + 1) / 400 == y / 400 + 1; } else { assert (y + 1) / 400 == y / 400; }
    }
  }

  /** Each year is DaysInYear (section 21.4.1.5) days long. */
  lemma DayFromYearStep(y: int)
    ensures DayFromYear(y + 1) == DayFromYear(y) + DaysInYear(y)
  {
    DayFromYearMarch(y);
    DayFromYearMarch(y + 1);
    MarchYearStep(y - 1);
  }

  /** DayFromYear is strictly increasing. */
  lemma {:induction false} DayFromYearMonotone(a: int, b: int)
    requires a < b
    ensures DayFromYear(a) + 365 * (b - a) <= DayFromYear(b)
    decreases b - a
  {
    DayFromYearStep(a);
    if a + 1 < b {
      DayFromYearMonotone(a + 1, b);
    }
  }

  // ---------------------------------------------------------------------
  // From a day number to a calendar date
  // ---------------------------------------------------------------------

  /**
   * Splits a day number counted from 0000-03-01 into a March-based year and
   * the day within it.
   */
  function MarchYearOf(zs: int): (r: (int, int))
    ensures MarchYearStart(r.0) + r.1 == zs
    ensures 0 <= r.1 < MarchYearLength(r.0)
  {
    var era := zs / 146097;
    var doe := zs % 146097;
    var c := if doe == 146096 then 3 else doe / 36524;
    var doc := doe - 36524 * c;
    var q := doc / 1461;
    var doq := doc - 1461 * q;
    var yq := if doq == 1460 then 3 else doq / 365;
    var doy := doq - 365 * yq;
    var yoe := 100 * c + 4 * q + yq;
    MarchYearWithinEra(c, q, yq, doy);
    MarchYearStartEra(era, yoe);
    LeapEra(era, yoe + 1);
    (400 * era + yoe, doy)
  }

  lemma MarchYearWithinEra(c: int, q: int, yq: int, doy: int)
    requires 0 <= c <= 3 && 0 <= q <= 24 && 0 <= yq <= 3 && 0 <= doy <= 365
    requires doy == 365 ==> yq == 3 && (q < 24 || c == 3)
    ensures MarchYearStart(100 * c + 4 * q + yq) == 36524 * c + 1461 * q + 365 * yq
    ensures doy < MarchYearLength(100 * c + 4 * q + yq)
  {
    var k := 100 * c + 4 * q + yq;
    assert k / 4 == 25 * c + q;
    assert k / 100 == c;
    assert k / 400 == 0;
    if doy == 365 {
      assert (k + 1) % 4 == 0;
      assert (k + 1) % 100 == 0 ==> q == 24 && c == 3 && k + 1 == 400;
    }
  }

  /** First day (from the first of March) of month `mp` of a March-based year; 0 is March. */
  function MarchMonthStart(mp: int): int
    requires 0 <= mp <= 12
  {
    [0, 31, 61, 92, 122, 153, 184, 214, 245, 275, 306, 337, 366][mp]
  }

  function MarchMonthOf(doy: int): (mp: int)
    requires 0 <= doy < 366
    ensures 0 <= mp < 12 && MarchMonthStart(mp) <= doy < MarchMonthStart(mp + 1)
  {
    if doy < 153 then
      (if doy < 31 then 0 else if doy < 61 then 1 else if doy < 92 then 2
       else if doy < 122 then 3 else 4)
    else if doy < 306 then
      (if doy < 184 then 5 else if doy < 214 then 6 else if doy < 245 then 7
       else if doy < 275 then 8 else 9)
    else if doy < 337 then 10 else 11
  }

  /** Year, month (1 = January) and day of month of day number `z` (Day 0 is 1970-01-01). */
  function CivilFromDays(z: int): (r: (int, int, int))
  {
    var (my, doy) := MarchYearOf(z + 719468);
    var mp := MarchMonthOf(doy);
    var d := doy - MarchMonthStart(mp) + 1;
    if mp < 10 then (my, mp + 3, d) else (my + 1, mp - 9, d)
  }

  /** CivilFromDays gives a valid date whose MakeDay is the day it came from. */
  lemma CivilFromDaysInverse(z: int)
    ensures var (y, m, d) := CivilFromDays(z);
      ValidDate(y, m, d) && MakeDay(y, m, d) == z
  {
    var (my, doy) := MarchYearOf(z + 719468);
    var mp := MarchMonthOf(doy);
    if mp < 10 {
      DayFromYearMarch(my);
      MarchYearStep(my - 1);
    } else {
      DayFromYearMarch(my + 1);
    }
  }

  /** The year of CivilFromDays is YearFromTime of section 21.4.1.8. */
  lemma CivilFromDaysYear(z: int)
    ensures DayFromYear(CivilFromDays(z).0) <= z < DayFromYear(CivilFromDays(z).0 + 1)
  {
    var (y, m, d) := CivilFromDays(z);
    CivilFromDaysInverse(z);
    DayFromYearStep(y);
  }

  /** Broken-down UTC fields of a time value. */
  function Fields(t: int): (f: DateTime)
    ensures Canonical(f) && TimeOf(f) == t
  {
    var day := t / 86400000;
    var tod := t % 86400000;
    CivilFromDaysInverse(day);
    TimeOfDay(tod);
    var (y, m, d) := CivilFromDays(day);
    DateTime(y, m, d, tod / 3600000, tod % 3600000 / 60000, tod % 60000 / 1000, tod % 1000)
  }

  lemma TimeOfDay(tod: int)
    requires 0 <= tod < 86400000
    ensures 0 <= tod / 3600000 < 24 && 0 <= tod % 3600000 / 60000 < 60
    ensures 0 <= tod % 60000 / 1000 < 60 && 0 <= tod % 1000 < 1000
    ensures MakeTime(tod / 3600000, tod % 3600000 / 60000, tod % 60000 / 1000, tod % 1000) == tod
  {
    var h, rh := tod / 3600000, tod % 3600000;
    var mi, rm := rh / 60000, rh % 60000;
    var s, ms := rm / 1000, rm % 1000;
    assert tod == h * 3600000 + rh;
    assert rh == mi * 60000 + rm;
    assert rm == s * 1000 + ms;
    assert tod % 60000 == rm by {
      assert tod == (h * 60 + mi) * 60000 + rm;
    }
    assert tod % 1000 == ms by {
      assert tod == ((h * 60 + mi) * 60 + s) * 1000 + ms;
    }
  }

  lemma DayFromYearLe(a: int, b: int)
    requires a <= b
    ensures DayFromYear(a) <= DayFromYear(b)
  {
    if a < b {
      DayFromYearMonotone(a, b);
    }
  }

  /** A valid date lies within its year. */
  lemma MakeDayInYear(y: int, m: int, d: int)
    requires ValidDate(y, m, d)
    ensures DayFromYear(y) <= MakeDay(y, m, d) < DayFromYear(y + 1)
  {
    DayFromYearStep(y);
  }

  /** Only one year contains a given day. */
  lemma YearUnique(y1: int, y2: int, z: int)
    requires DayFromYear(y1) <= z < DayFromYear(y1 + 1)
    requires DayFromYear(y2) <= z < DayFromYear(y2 + 1)
    ensures y1 == y2
  {
    if y1 < y2 {
      DayFromYearLe(y1 + 1, y2);
    } else if y2 < y1 {
      DayFromYearLe(y2 + 1, y1);
    }
  }

  /** MakeDay is one-to-one on valid dates. */
  lemma MakeDayInjective(y1: int, m1: int, d1: int, y2: int, m2: int, d2: int)
    requires ValidDate(y1, m1, d1) && ValidDate(y2, m2, d2)
    requires MakeDay(y1, m1, d1) == MakeDay(y2, m2, d2)
    ensures y1 == y2 && m1 == m2 && d1 == d2
  {
    MakeDayInYear(y1, m1, d1);
    MakeDayInYear(y2, m2, d2);
    YearUnique(y1, y2, MakeDay(y1, m1, d1));
  }

  /** The fields of a time value are the only canonical fields that denote it. */
  lemma FieldsUnique(f: DateTime)
    requires Canonical(f)
    ensures Fields(TimeOf(f)) == f
  {
    var t := TimeOf(f);
    var day := MakeDay(f.year, f.month, f.day);
    var tod := MakeTime(f.hour, f.minute, f.second, f.millisecond);
    assert 0 <= tod < 86400000;
    assert t / 86400000 == day && t % 86400000 == tod;
    CivilFromDaysInverse(day);
    var (y, m, d) := CivilFromDays(day);
    MakeDayInjective(y, m, d, f.year, f.month, f.day);
    TimeOfDay(tod);
  }

  /** Every time value falls in a year that six digits can write. */
  lemma FieldsYearRange(t: TimeValue)
    ensures -999999 <= Fields(t).year <= 999999
  {
    var day := t / 86400000;
    assert -100000000 <= day <= 100000000;
    var r := MarchYearOf(day + 719468);
    var era := (day + 719468) / 146097;
    assert -700 <= era <= 700;
  }

  // ---------------------------------------------------------------------
  // Text (Date.prototype.toISOString and the format it writes)
  // ---------------------------------------------------------------------

  /** The year field: four digits for 0..9999, otherwise a sign and six digits. */
  function YearText(y: int): (s: seq<char>)
    requires -999999 <= y <= 999999
    ensures 0 <= y <= 9999 ==> (|s| == 4 && AllDigits(s) && DigitsValue(s) == y)
    ensures !(0 <= y <= 9999) ==>
      (|s| == 7 && s[0] == (if y < 0 then '-' else '+')
       && AllDigits(s[1..]) && DigitsValue(s[1..]) == (if y < 0 then -y else y))
  {
    if 0 <= y <= 9999 then
      PadDigitsRoundTrip(y, 4);
      PadDigits(y, 4)
    else
      var a := if y < 0 then -y else y;
      var s := [if y < 0 then '-' else '+'] + PadDigits(a, 6);
      PadDigitsRoundTrip(a, 6);
      assert s[1..] == PadDigits(a, 6);
      s
  }

  /** Everything after the year: `-MM-DDTHH:mm:ss.sssZ`. */
  function RestText(f: DateTime): (s: seq<char>)
    requires 0 <= f.month && 0 <= f.day && 0 <= f.hour && 0 <= f.minute
    requires 0 <= f.second && 0 <= f.millisecond
    ensures |s| == 20
    ensures s[0] == '-' && s[3] == '-' && s[6] == 'T' && s[9] == ':' && s[12] == ':'
      && s[15] == '.' && s[19] == 'Z'
    ensures AllDigits(s[1..3]) && AllDigits(s[4..6]) && AllDigits(s[7..9])
      && AllDigits(s[10..12]) && AllDigits(s[13..15]) && AllDigits(s[16..19])
  {
    ['-'] + PadDigits(f.month, 2) + ['-'] + PadDigits(f.day, 2)
      + ['T'] + PadDigits(f.hour, 2) + [':'] + PadDigits(f.minute, 2)
      + [':'] + PadDigits(f.second, 2) + ['.'] + PadDigits(f.millisecond, 3) + ['Z']
  }

  /** `new Date(t).toISOString()` for a time value `t`. */
  function ToIsoString(t: TimeValue): (s: string)
    ensures |s| == (if 0 <= Fields(t).year <= 9999 then 24 else 27)
    ensures s[|s| - 1] == 'Z'
  {
    var f := Fields(t);
    FieldsYearRange(t);
    YearText(f.year) + RestText(f)
  }

  /**
   * The time value of the text after the year, or None where the text is not
   * in the format or a field is out of range. Hour 24 is read as the end of
   * the day, and only as 24:00:00.000.
   */
  function ParseRest(y: int, r: seq<char>): (t: Option<TimeValue>)
    requires |r| == 20
    ensures t.Some? ==>
      (r[0] == '-' && r[3] == '-' && r[6] == 'T' && r[9] == ':'
       && r[12] == ':' && r[15] == '.' && r[19] == 'Z')
    ensures t.Some? ==>
      (AllDigits(r[1..3]) && AllDigits(r[4..6])
       && ValidDate(y, DigitsValue(r[1..3]), DigitsValue(r[4..6])))
    ensures t.Some? ==>
      (AllDigits(r[7..9]) && AllDigits(r[10..12]) && AllDigits(r[13..15])
       && DigitsValue(r[7..9]) <= 24 && DigitsValue(r[10..12]) < 60 && DigitsValue(r[13..15]) < 60)
    ensures t.Some? ==> AllDigits(r[16..19])
    ensures t.Some? && DigitsValue(r[7..9]) == 24 ==>
      (DigitsValue(r[10..12]) == 0 && DigitsValue(r[13..15]) == 0 && DigitsValue(r[16..19]) == 0)
  {
    if r[0] == '-' && r[3] == '-' && r[6] == 'T' && r[9] == ':' && r[12] == ':'
       && r[15] == '.' && r[19] == 'Z'
       && AllDigits(r[1..3]) && AllDigits(r[4..6]) && AllDigits(r[7..9])
       && AllDigits(r[10..12]) && AllDigits(r[13..15]) && AllDigits(r[16..19])
    then
      var m, d := DigitsValue(r[1..3]), DigitsValue(r[4..6]);
      var h, mi := DigitsValue(r[7..9]), DigitsValue(r[10..12]);
      var s, ms := DigitsValue(r[13..15]), DigitsValue(r[16..19]);
      if ValidDate(y, m, d) && ((h < 24 && mi < 60 && s < 60) || (h == 24 && mi == 0 && s == 0 && ms == 0)) then
        var t := MakeDate(MakeDay(y, m, d), MakeTime(h, mi, s, ms));
        if -MaxTimeValue <= t <= MaxTimeValue then Some(t) else None
      else None
    else None
  }

  /**
   * `new Date(s).getTime()` for text in the form toISOString writes, None
   * standing for NaN (an Invalid Date). The year is four digits, or a sign and
   * six digits; "-000000" is not a valid year.
   */
  function ParseIso(s: seq<char>): (t: Option<TimeValue>)
    ensures t.Some? ==> (|s| == 24 || |s| == 27) && s[|s| - 1] == 'Z'
    ensures t.Some? && |s| == 24 ==> AllDigits(s[..4])
    ensures t.Some? && |s| == 27 ==>
      ((s[0] == '+' || s[0] == '-') && AllDigits(s[1..7])
       && (s[0] == '-' ==> DigitsValue(s[1..7]) != 0))
  {
    if |s| == 24 && AllDigits(s[..4]) then
      ParseRest(DigitsValue(s[..4]), s[4..])
    else if |s| == 27 && (s[0] == '+' || s[0] == '-') && AllDigits(s[1..7]) then
      var v: int := DigitsValue(s[1..7]);
      if s[0] == '-' && v == 0 then None
      else ParseRest(if s[0] == '-' then -v else v, s[7..])
    else None
  }

  lemma RestRoundTrip(f: DateTime)
    requires Canonical(f)
    ensures |RestText(f)| == 20
    ensures ParseRest(f.year, RestText(f)) == if -MaxTimeValue <= TimeOf(f) <= MaxTimeValue then Some(TimeOf(f)) else None
  {
    RestFields(f);
  }

  /** Each two- or three-digit field of the text reads back as the field that wrote it. */
  lemma RestFields(f: DateTime)
    requires Canonical(f)
    ensures var r := RestText(f);
      DigitsValue(r[1..3]) == f.month && DigitsValue(r[4..6]) == f.day
      && DigitsValue(r[7..9]) == f.hour && DigitsValue(r[10..12]) == f.minute
      && DigitsValue(r[13..15]) == f.second && DigitsValue(r[16..19]) == f.millisecond
  {
    var r := RestText(f);
    assert r[1..3] == PadDigits(f.month, 2);
    assert r[4..6] == PadDigits(f.day, 2);
    assert r[7..9] == PadDigits(f.hour, 2);
    assert r[10..12] == PadDigits(f.minute, 2);
    assert r[13..15] == PadDigits(f.second, 2);
    assert r[16..19] == PadDigits(f.millisecond, 3);
    PadDigitsRoundTrip(f.month, 2);
    PadDigitsRoundTrip(f.day, 2);
    PadDigitsRoundTrip(f.hour, 2);
    PadDigitsRoundTrip(f.minute, 2);
    PadDigitsRoundTrip(f.second, 2);
    PadDigitsRoundTrip(f.millisecond, 3);
  }

  /** The parser reads the year field back and hands the rest to ParseRest. */
  lemma ParseIsoYear(y: int, rest: seq<char>)
    requires -999999 <= y <= 999999 && |rest| == 20
    ensures ParseIso(YearText(y) + rest) == ParseRest(y, rest)
  {
    var yt := YearText(y);
    var s := yt + rest;
    if 0 <= y <= 9999 {
      assert s[..4] == yt;
      assert s[4..] == rest;
    } else {
      assert s[0] == yt[0];
      assert s[1..7] == yt[1..];
      assert s[7..] == rest;
    }
  }

  /**
   * toISOString writes the UTC fields of `t`: the year field, then month, day,
   * hour (never 24), minute, second and millisecond, each reading back as the
   * field of `Fields(t)`.
   */
  lemma ToIsoFields(t: TimeValue)
    ensures var f := Fields(t);
      -999999 <= f.year <= 999999 && ToIsoString(t) == YearText(f.year) + RestText(f)
    ensures var s, f := ToIsoString(t), Fields(t); var r := s[|s| - 20..];
      DigitsValue(r[1..3]) == f.month && DigitsValue(r[4..6]) == f.day
      && DigitsValue(r[7..9]) == f.hour && f.hour < 24
      && DigitsValue(r[10..12]) == f.minute && DigitsValue(r[13..15]) == f.second
      && DigitsValue(r[16..19]) == f.millisecond
  {
    var f := Fields(t);
    FieldsYearRange(t);
    RestFields(f);
    var s := ToIsoString(t);
    assert s[|s| - 20..] == RestText(f);
  }

  /** Reading back what toISOString wrote gives the same millisecond. */
  lemma IsoRoundTrip(t: TimeValue)
    ensures ParseIso(ToIsoString(t)) == Some(t)
  {
    var f := Fields(t);
    FieldsYearRange(t);
    RestRoundTrip(f);
    ParseIsoYear(f.year, RestText(f));
  }
}
