// RFC 3339 UTC timestamps with seconds precision. The server stamps entries with them, the client
// prints revocation times with them, and every "before" decision in the pipeline compares the
// printed strings. This module relates that string order to the order of the Unix seconds.
module Timestamps {
  import opened Text

  const EPOCH_DAYS: int := 719162   // days from 0001-01-01 to 1970-01-01

  datatype Civil = Civil(year: int, month: int, day: int, hour: int, minute: int, second: int)

  // ---------- Proleptic Gregorian calendar ----------

  // Appendix C of RFC 3339
  predicate IsLeap(year: int) { year % 4 == 0 && (year % 100 != 0 || year % 400 == 0) }

  function YearDays(year: int): int { if IsLeap(year) then 366 else 365 }

  // Days from 0001-01-01 to January 1st of the year.
  function DaysBeforeYear(year: int): int
  {
    var p := year - 1;
    365 * p + p / 4 - p / 100 + p / 400
  }

  // Days before the first of the month in a common or leap year; month 13 is the following January.
  function DaysBeforeMonth(month: int, leap: bool): int
    requires 1 <= month <= 13
  {
    [0, 31, 59, 90, 120, 151, 181, 212, 243, 273, 304, 334, 365][month - 1]
    + (if leap && month > 2 then 1 else 0)
  }

  predicate Valid(c: Civil)
  {
    && 1 <= c.month <= 12
    && 1 <= c.day <= DaysBeforeMonth(c.month + 1, IsLeap(c.year)) - DaysBeforeMonth(c.month, IsLeap(c.year))
    && 0 <= c.hour < 24 && 0 <= c.minute < 60 && 0 <= c.second < 60
  }

  function DayNumber(c: Civil): int
    requires Valid(c)
  {
    DaysBeforeYear(c.year) + DaysBeforeMonth(c.month, IsLeap(c.year)) + c.day - 1
  }

  function ToSeconds(c: Civil): int
    requires Valid(c)
  {
    (DayNumber(c) - EPOCH_DAYS) * 86400 + c.hour * 3600 + c.minute * 60 + c.second
  }

  // The year of a day number, by 400-, 100-, 4- and 1-year cycles.
  function YearOf(day: int): int
  {
    var n400, r400 := day / 146097, day % 146097;
    var n100 := if r400 / 36524 > 3 then 3 else r400 / 36524;
    var r100 := r400 - n100 * 36524;
    var n4, r4 := r100 / 1461, r100 % 1461;
    var n1 := if r4 / 365 > 3 then 3 else r4 / 365;
    1 + 400 * n400 + 100 * n100 + 4 * n4 + n1
  }

  function MonthOf(dayOfYear: int, leap: bool): (m: int)
    requires 0 <= dayOfYear < if leap then 366 else 365
    ensures 1 <= m <= 12
    ensures DaysBeforeMonth(m, leap) <= dayOfYear < DaysBeforeMonth(m + 1, leap)
  {
    var k := if leap then 1 else 0;
    if dayOfYear < 31 then 1
    else if dayOfYear < 59 + k then 2
    else if dayOfYear < 90 + k then 3
    else if dayOfYear < 120 + k then 4
    else if dayOfYear < 151 + k then 5
    else if dayOfYear < 181 + k then 6
    else if dayOfYear < 212 + k then 7
    else if dayOfYear < 243 + k then 8
    else if dayOfYear < 273 + k then 9
    else if dayOfYear < 304 + k then 10
    else if dayOfYear < 334 + k then 11
    else 12
  }

  function FromSeconds(seconds: int): Civil
  {
    var day, clock := seconds / 86400 + EPOCH_DAYS, seconds % 86400;
    var year := YearOf(day);
    YearOfContains(day);
    var dayOfYear := day - DaysBeforeYear(year);
    var month := MonthOf(dayOfYear, IsLeap(year));
    Civil(year, month, dayOfYear - DaysBeforeMonth(month, IsLeap(year)) + 1,
          clock / 3600, clock / 60 % 60, clock % 60)
  }

  lemma CycleQuotients(n400: int, n100: int, n4: int, n1: int)
    requires 0 <= n100 <= 3 && 0 <= n4 <= 24 && 0 <= n1 <= 3
    ensures var p := 400 * n400 + 100 * n100 + 4 * n4 + n1;
            p / 400 == n400 && p / 100 == 4 * n400 + n100 && p / 4 == 100 * n400 + 25 * n100 + n4
  {
  }

  // Leap years repeat every 400 years.
  lemma LeapPeriod(q: int, m: int)
    ensures IsLeap(400 * q + m) <==> IsLeap(m)
  {
    Remainder4(100 * q, m);
    Remainder100(4 * q, m);
    Remainder400(q, m);
  }

  lemma Remainder4(q: int, m: int)
    ensures (4 * q + m) % 4 == m % 4
  {
    var a, r := m / 4, m % 4;
    assert 4 * q + m == 4 * (q + a) + r;
  }

  lemma Remainder100(q: int, m: int)
    ensures (100 * q + m) % 100 == m % 100
  {
    var a, r := m / 100, m % 100;
    assert 100 * q + m == 100 * (q + a) + r;
  }

  lemma Remainder400(q: int, m: int)
    ensures (400 * q + m) % 400 == m % 400
  {
    var a, r := m / 400, m % 400;
    assert 400 * q + m == 400 * (q + a) + r;
  }

  lemma LeapInFourCenturies(n100: int, n4: int, n1: int)
    requires 0 <= n100 <= 3 && 0 <= n4 <= 24 && 0 <= n1 <= 3
    ensures IsLeap(1 + 100 * n100 + 4 * n4 + n1) <==> n1 == 3 && (n4 < 24 || n100 == 3)
  {
    var y := 1 + 100 * n100 + 4 * n4 + n1;
    assert y % 4 == 0 <==> n1 == 3;
    if n1 == 3 {
      assert y % 100 == 0 <==> n4 == 24;
    }
  }

  // A year decomposed into its cycles: how its January 1st and its length are computed.
  lemma CycleStart(n400: int, n100: int, n4: int, n1: int)
    requires 0 <= n100 <= 3 && 0 <= n4 <= 24 && 0 <= n1 <= 3
    ensures var y := 1 + 400 * n400 + 100 * n100 + 4 * n4 + n1;
            && DaysBeforeYear(y) == 146097 * n400 + 36524 * n100 + 1461 * n4 + 365 * n1
            && (IsLeap(y) <==> n1 == 3 && (n4 < 24 || n100 == 3))
  {
    CycleQuotients(n400, n100, n4, n1);
    LeapPeriod(n400, 1 + 100 * n100 + 4 * n4 + n1);
    LeapInFourCenturies(n100, n4, n1);
  }

  lemma YearLength(year: int)
    ensures DaysBeforeYear(year + 1) == DaysBeforeYear(year) + YearDays(year)
  {
    var p := year - 1;
    var n400, r400 := p / 400, p % 400;
    var n100, r100 := r400 / 100, r400 % 100;
    var n4, n1 := r100 / 4, r100 % 4;
    CycleStart(n400, n100, n4, n1);
    if n1 < 3 {
      CycleStart(n400, n100, n4, n1 + 1);
    } else if n4 < 24 {
      CycleStart(n400, n100, n4 + 1, 0);
    } else if n100 < 3 {
      CycleStart(n400, n100 + 1, 0, 0);
    } else {
      CycleStart(n400 + 1, 0, 0, 0);
    }
  }

  lemma YearOfContains(day: int)
    ensures DaysBeforeYear(YearOf(day)) <= day < DaysBeforeYear(YearOf(day)) + YearDays(YearOf(day))
  {
    var n400, r400 := day / 146097, day % 146097;
    var n100 := if r400 / 36524 > 3 then 3 else r400 / 36524;
    var r100 := r400 - n100 * 36524;
    var n4, r4 := r100 / 1461, r100 % 1461;
    var n1 := if r4 / 365 > 3 then 3 else r4 / 365;
    assert 0 <= r100 <= 36524;
    assert 0 <= n4 <= 24 + (if r100 >= 36525 then 1 else 0);
    CycleStart(n400, n100, n4, n1);
  }

  // Later years start after earlier years have ended.
  lemma {:induction false} YearsAscend(y: int, z: int)
    requires y < z
    ensures DaysBeforeYear(y) + YearDays(y) <= DaysBeforeYear(z)
    decreases z - y
  {
    YearLength(y);
    if y + 1 < z {
      YearsAscend(y + 1, z);
    }
  }

  predicate CivilLess(a: Civil, b: Civil)
  {
    a.year < b.year || (a.year == b.year && (
    a.month < b.month || (a.month == b.month && (
    a.day < b.day || (a.day == b.day && (
    a.hour < b.hour || (a.hour == b.hour && (
    a.minute < b.minute || (a.minute == b.minute &&
    a.second < b.second)))))))))
  }

  lemma DayOfYearBounds(c: Civil)
    requires Valid(c)
    ensures 0 <= DayNumber(c) - DaysBeforeYear(c.year) < YearDays(c.year)
  {
  }

  lemma DaysAscend(a: Civil, b: Civil)
    requires Valid(a) && Valid(b)
    requires a.year < b.year
             || (a.year == b.year && (a.month < b.month || (a.month == b.month && a.day < b.day)))
    ensures DayNumber(a) < DayNumber(b)
  {
    DayOfYearBounds(a);
    DayOfYearBounds(b);
    if a.year < b.year {
      YearsAscend(a.year, b.year);
    }
  }

  lemma CivilOrder(a: Civil, b: Civil)
    requires Valid(a) && Valid(b)
    requires CivilLess(a, b)
    ensures ToSeconds(a) < ToSeconds(b)
  {
    if (a.year, a.month, a.day) != (b.year, b.month, b.day) {
      DaysAscend(a, b);
    }
  }

  // The calendar conversion is a bijection between seconds and valid civil times.
  lemma CivilRoundTrip(seconds: int)
    ensures Valid(FromSeconds(seconds))
    ensures ToSeconds(FromSeconds(seconds)) == seconds
  {
    YearOfContains(seconds / 86400 + EPOCH_DAYS);
    ClockParts(seconds % 86400);
  }

  lemma ClockParts(clock: int)
    requires 0 <= clock < 86400
    ensures 0 <= clock / 3600 < 24 && clock / 3600 * 3600 + clock / 60 % 60 * 60 + clock % 60 == clock
  {
  }

  lemma SecondsRoundTrip(c: Civil)
    requires Valid(c)
    ensures FromSeconds(ToSeconds(c)) == c
  {
    var d := FromSeconds(ToSeconds(c));
    CivilRoundTrip(ToSeconds(c));
    if CivilLess(c, d) {
      CivilOrder(c, d);
    } else if CivilLess(d, c) {
      CivilOrder(d, c);
    }
  }

  // ---------- The printed form ----------

  // At least `width` digits; a year beyond 9999 simply needs more of them.
  function AtLeast(width: nat, n: nat): string
    decreases width + n
  {
    if n < Pow10(width) then Pad(width, n)
    else AtLeast(if width > 0 then width - 1 else 0, n / 10) + [Digit(n % 10)]
  }

  function YearText(year: int): string
  {
    if year < 0 then "-" + AtLeast(4, -year) else AtLeast(4, year)
  }

  function ClockText(c: Civil): string
    requires Valid(c)
  {
    "T" + (Pad(2, c.hour) + (":" + (Pad(2, c.minute) + (":" + (Pad(2, c.second) + "Z")))))
  }

  // time.RFC3339 for a UTC time, section 5.6 of RFC 3339: YYYY-MM-DDTHH:MM:SSZ
  function Format(c: Civil): string
    requires Valid(c)
  {
    YearText(c.year) + ("-" + (Pad(2, c.month) + ("-" + (Pad(2, c.day) + ClockText(c)))))
  }

  // time.Unix(seconds, 0).UTC().Format(time.RFC3339)
  function FormatUnix(seconds: int): string
  {
    CivilRoundTrip(seconds);
    Format(FromSeconds(seconds))
  }

  function YearStart(year: int): int
  {
    ToSeconds(Civil(year, 1, 1, 0, 0, 0))
  }

  predicate InCanonicalYears(seconds: int)
  {
    YearStart(0) <= seconds < YearStart(10000)
  }

  // One two-digit field with its separator: it decides, or passes the decision on.
  lemma FieldOrder(sep: string, m: nat, n: nat, x: string, y: string)
    requires |sep| == 1 && m < 100 && n < 100
    ensures LexLess(sep + (Pad(2, m) + x), sep + (Pad(2, n) + y)) <==> m < n || (m == n && LexLess(x, y))
  {
    LexConcat(sep, sep, Pad(2, m) + x, Pad(2, n) + y);
    LexIrreflexive(sep);
    LexConcat(Pad(2, m), Pad(2, n), x, y);
    assert Pow10(2) == 100;
    PadOrder(2, m, n);
  }

  lemma ClockOrder(a: Civil, b: Civil)
    requires Valid(a) && Valid(b)
    ensures LexLess(ClockText(a), ClockText(b))
       <==> a.hour < b.hour || (a.hour == b.hour && (
            a.minute < b.minute || (a.minute == b.minute && a.second < b.second)))
  {
    FieldOrder(":", a.second, b.second, "Z", "Z");
    LexIrreflexive("Z");
    FieldOrder(":", a.minute, b.minute, ":" + (Pad(2, a.second) + "Z"), ":" + (Pad(2, b.second) + "Z"));
    FieldOrder("T", a.hour, b.hour,
      ":" + (Pad(2, a.minute) + (":" + (Pad(2, a.second) + "Z"))),
      ":" + (Pad(2, b.minute) + (":" + (Pad(2, b.second) + "Z"))));
  }

  // Years -1 to 9999 print so that earlier years are smaller strings: '-' sorts before every digit.
  lemma YearTextOrder(y: int, z: int, s: string, t: string)
    requires -1 <= y <= 9999 && -1 <= z <= 9999
    ensures LexLess(YearText(y) + s, YearText(z) + t) <==> y < z || (y == z && LexLess(s, t))
  {
    assert Pow10(4) == 10000;
    if y < 0 && z < 0 {
      LexIrreflexive(YearText(y));
      LexConcat(YearText(y), YearText(z), s, t);
    } else if y < 0 || z < 0 {
      var p := Pad(4, if y < 0 then z else y);
      assert IsDigit(p[0]);
      assert ("-" + AtLeast(4, 1))[0] == '-';
    } else {
      LexConcat(YearText(y), YearText(z), s, t);
      PadOrder(4, y, z);
    }
  }

  lemma FormatOrder(a: Civil, b: Civil)
    requires Valid(a) && Valid(b)
    requires -1 <= a.year <= 9999 && -1 <= b.year <= 9999
    ensures LexLess(Format(a), Format(b)) <==> CivilLess(a, b)
  {
    ClockOrder(a, b);
    FieldOrder("-", a.day, b.day, ClockText(a), ClockText(b));
    FieldOrder("-", a.month, b.month, "-" + (Pad(2, a.day) + ClockText(a)), "-" + (Pad(2, b.day) + ClockText(b)));
    YearTextOrder(a.year, b.year,
      "-" + (Pad(2, a.month) + ("-" + (Pad(2, a.day) + ClockText(a)))),
      "-" + (Pad(2, b.month) + ("-" + (Pad(2, b.day) + ClockText(b)))));
  }

  lemma YearOfSeconds(seconds: int, year: int)
    ensures FromSeconds(seconds).year >= year <==> YearStart(year) <= seconds
  {
    var c := FromSeconds(seconds);
    CivilRoundTrip(seconds);
    var first := Civil(year, 1, 1, 0, 0, 0);
    SecondsRoundTrip(first);
    if c.year < year {
      CivilOrder(c, first);
    } else if c != first {
      assert CivilLess(first, c);
      CivilOrder(first, c);
    }
  }

  lemma PrintedCivilOrder(c: Civil, d: Civil)
    requires Valid(c) && Valid(d)
    requires -1 <= c.year <= 9999 && -1 <= d.year <= 9999
    ensures LexLess(Format(c), Format(d)) <==> ToSeconds(c) < ToSeconds(d)
    ensures Format(c) == Format(d) <==> ToSeconds(c) == ToSeconds(d)
  {
    FormatOrder(c, d);
    FormatOrder(d, c);
    LexIrreflexive(Format(c));
    if CivilLess(c, d) {
      CivilOrder(c, d);
    } else if CivilLess(d, c) {
      CivilOrder(d, c);
    } else {
      assert c == d;
    }
  }

  lemma OrderInYears(a: int, b: int)
    requires YearStart(-1) <= a < YearStart(10000) && YearStart(-1) <= b < YearStart(10000)
    ensures LexLess(FormatUnix(a), FormatUnix(b)) <==> a < b
    ensures FormatUnix(a) == FormatUnix(b) <==> a == b
  {
    YearOfSeconds(a, -1);
    YearOfSeconds(a, 10000);
    YearOfSeconds(b, -1);
    YearOfSeconds(b, 10000);
    CivilRoundTrip(a);
    CivilRoundTrip(b);
    PrintedCivilOrder(FromSeconds(a), FromSeconds(b));
  }

  // Section 5.1 of RFC 3339: the strings of two times in years 0000-9999 compare as the times do.
  lemma StringOrderIsTimeOrder(a: int, b: int)
    requires InCanonicalYears(a) && InCanonicalYears(b)
    ensures LexLess(FormatUnix(a), FormatUnix(b)) <==> a < b
    ensures FormatUnix(a) == FormatUnix(b) <==> a == b
  {
    OrderInYears(a, b);
  }

  // ---------- Which time is printed, and how ----------

  predicate IsNumeral(s: string, n: int)
  {
    (forall c :: c in s ==> IsDigit(c)) && Value(s) == n
  }

  // YYYY-MM-DDTHH:MM:SSZ, position by position.
  predicate ShowsTime(t: string, c: Civil)
  {
    && |t| == 20
    && t[4] == '-' && t[7] == '-' && t[10] == 'T' && t[13] == ':' && t[16] == ':' && t[19] == 'Z'
    && IsNumeral(t[0..4], c.year) && IsNumeral(t[5..7], c.month) && IsNumeral(t[8..10], c.day)
    && IsNumeral(t[11..13], c.hour) && IsNumeral(t[14..16], c.minute) && IsNumeral(t[17..19], c.second)
  }

  lemma TwoDigits(n: nat)
    requires n < 100
    ensures |Pad(2, n)| == 2 && IsNumeral(Pad(2, n), n)
  {
    assert Pow10(2) == 100;
    PadValue(2, n);
  }

  lemma ClockLayout(c: Civil)
    requires Valid(c)
    ensures ShowsClock(ClockText(c), c)
  {
    TwoDigits(c.hour);
    TwoDigits(c.minute);
    TwoDigits(c.second);
    var t := ClockText(c);
    assert t[1..3] == Pad(2, c.hour) && t[4..6] == Pad(2, c.minute) && t[7..9] == Pad(2, c.second);
  }

  lemma DatePieces(y: string, m: string, d: string, clock: string)
    requires |y| == 4 && |m| == 2 && |d| == 2 && |clock| == 10
    ensures var t := y + ("-" + (m + ("-" + (d + clock))));
            && |t| == 20 && t[0..4] == y && t[5..7] == m && t[8..10] == d && t[10..] == clock
            && t[4] == '-' && t[7] == '-'
  {
    var rest := "-" + (d + clock);
    assert rest[1..3] == d && rest[3..] == clock;
    var tail := "-" + (m + rest);
    assert tail[1..3] == m && tail[3..] == rest;
    var t := y + tail;
    assert t[4..] == tail && t[7..] == rest;
  }

  ghost predicate ShowsClock(t: string, c: Civil)
  {
    && |t| == 10 && t[0] == 'T' && t[3] == ':' && t[6] == ':' && t[9] == 'Z'
    && IsNumeral(t[1..3], c.hour) && IsNumeral(t[4..6], c.minute) && IsNumeral(t[7..9], c.second)
  }

  lemma ClockBehindDate(t: string, clock: string, c: Civil)
    requires |t| == 20 && t[10..] == clock && ShowsClock(clock, c)
    ensures t[10] == 'T' && t[13] == ':' && t[16] == ':' && t[19] == 'Z'
    ensures IsNumeral(t[11..13], c.hour) && IsNumeral(t[14..16], c.minute) && IsNumeral(t[17..19], c.second)
  {
    assert t[11..13] == clock[1..3] && t[14..16] == clock[4..6] && t[17..19] == clock[7..9];
    assert t[10] == clock[0] && t[13] == clock[3] && t[16] == clock[6] && t[19] == clock[9];
  }

  lemma PiecesShowTime(y: string, m: string, d: string, clock: string, c: Civil)
    requires |y| == 4 && |m| == 2 && |d| == 2
    requires IsNumeral(y, c.year) && IsNumeral(m, c.month) && IsNumeral(d, c.day) && ShowsClock(clock, c)
    ensures ShowsTime(y + ("-" + (m + ("-" + (d + clock)))), c)
  {
    DatePieces(y, m, d, clock);
    ClockBehindDate(y + ("-" + (m + ("-" + (d + clock)))), clock, c);
  }

  // Section 5.6 of RFC 3339, for the years with four digits.
  lemma Layout(c: Civil)
    requires Valid(c) && 0 <= c.year <= 9999
    ensures ShowsTime(Format(c), c)
  {
    assert Pow10(4) == 10000;
    PadValue(4, c.year);
    TwoDigits(c.month);
    TwoDigits(c.day);
    ClockLayout(c);
    PiecesShowTime(Pad(4, c.year), Pad(2, c.month), Pad(2, c.day), ClockText(c), c);
  }

  // What is printed for a second shows the civil time of that second.
  lemma FormatShowsTime(seconds: int)
    requires InCanonicalYears(seconds)
    ensures ShowsTime(FormatUnix(seconds), FromSeconds(seconds))
  {
    CivilRoundTrip(seconds);
    YearOfSeconds(seconds, 0);
    YearOfSeconds(seconds, 10000);
    Layout(FromSeconds(seconds));
  }

  // Second 0 is the beginning of 1970.
  lemma EpochIs1970()
    ensures FromSeconds(0) == Civil(1970, 1, 1, 0, 0, 0)
  {
    var c := Civil(1970, 1, 1, 0, 0, 0);
    assert DaysBeforeYear(1970) == 719162;
    assert ToSeconds(c) == 0;
    SecondsRoundTrip(c);
  }

  lemma SmallNumerals()
    ensures Pad(2, 0) == "00" && Pad(2, 1) == "01"
  {
    assert Pad(1, 0) == "0" && Pad(0, 0) == "";
  }

  lemma Numeral1970()
    ensures YearText(1970) == "1970"
  {
    assert Pow10(4) == 10000;
    assert Pad(0, 0) == "" && Pad(1, 1) == Pad(0, 0) + ['1'];
    assert Pad(2, 19) == Pad(1, 1) + ['9'];
    assert Pad(3, 197) == Pad(2, 19) + ['7'];
    assert Pad(4, 1970) == Pad(3, 197) + ['0'];
  }

  lemma EpochClock()
    ensures ClockText(Civil(1970, 1, 1, 0, 0, 0)) == "T00:00:00Z"
  {
    SmallNumerals();
  }

  lemma EpochPrinted()
    ensures FormatUnix(0) == "1970-01-01T00:00:00Z"
  {
    EpochIs1970();
    Numeral1970();
    SmallNumerals();
    EpochClock();
    EpochPieces();
  }

  lemma EpochPieces()
    ensures "1970" + ("-" + ("01" + ("-" + ("01" + "T00:00:00Z")))) == "1970-01-01T00:00:00Z"
  {
    assert "01" + "T00:00:00Z" == "01T00:00:00Z";
    assert "-" + "01T00:00:00Z" == "-01T00:00:00Z";
    assert "01" + "-01T00:00:00Z" == "01-01T00:00:00Z";
    assert "-" + "01-01T00:00:00Z" == "-01-01T00:00:00Z";
  }

  // ---------- The clock ticks as the calendar says ----------

  const MONTH_LENGTHS: seq<int> := [31, 28, 31, 30, 31, 30, 31, 31, 30, 31, 30, 31]

  // Days of a month, with the leap-year rule of Appendix C of RFC 3339.
  function DaysInMonth(year: int, month: int): int
    requires 1 <= month <= 12
  {
    MONTH_LENGTHS[month - 1]
    + if month == 2 && year % 4 == 0 && (year % 100 != 0 || year % 400 == 0) then 1 else 0
  }

  // The civil time one second later.
  function NextSecond(c: Civil): Civil
    requires Valid(c)
  {
    if c.second < 59 then c.(second := c.second + 1)
    else if c.minute < 59 then c.(minute := c.minute + 1, second := 0)
    else if c.hour < 23 then c.(hour := c.hour + 1, minute := 0, second := 0)
    else if c.day < DaysInMonth(c.year, c.month) then Civil(c.year, c.month, c.day + 1, 0, 0, 0)
    else if c.month < 12 then Civil(c.year, c.month + 1, 1, 0, 0, 0)
    else Civil(c.year + 1, 1, 1, 0, 0, 0)
  }

  lemma MonthsAreTheCalendars(year: int, month: int)
    requires 1 <= month <= 12
    ensures DaysBeforeMonth(month + 1, IsLeap(year)) - DaysBeforeMonth(month, IsLeap(year)) == DaysInMonth(year, month)
  {
  }

  lemma NextDay(c: Civil)
    requires Valid(c) && c.hour == 23 && c.minute == 59 && c.second == 59
    ensures Valid(NextSecond(c)) && DayNumber(NextSecond(c)) == DayNumber(c) + 1
  {
    MonthsAreTheCalendars(c.year, c.month);
    if c.month == 12 {
      YearLength(c.year);
    }
  }

  lemma NextIsOneLater(c: Civil)
    requires Valid(c)
    ensures Valid(NextSecond(c)) && ToSeconds(NextSecond(c)) == ToSeconds(c) + 1
  {
    if c.hour == 23 && c.minute == 59 && c.second == 59 {
      NextDay(c);
    } else {
      assert DayNumber(NextSecond(c)) == DayNumber(c);
    }
  }

  lemma TickFrom(c: Civil, seconds: int)
    requires Valid(c) && ToSeconds(c) == seconds
    ensures FromSeconds(seconds + 1) == NextSecond(c)
  {
    NextIsOneLater(c);
    SecondsRoundTrip(NextSecond(c));
  }

  // Together with second 0 this says which civil time every second is.
  lemma Tick(seconds: int)
    ensures Valid(FromSeconds(seconds)) && FromSeconds(seconds + 1) == NextSecond(FromSeconds(seconds))
  {
    CivilRoundTrip(seconds);
    TickFrom(FromSeconds(seconds), seconds);
  }

  // ---------- How far the string order can be trusted ----------

  // On [lo, hi) comparing strings is comparing times.
  ghost predicate OrderFaithful(lo: int, hi: int)
  {
    forall a, b {:trigger FormatUnix(a), FormatUnix(b)} | lo <= a < hi && lo <= b < hi ::
      LexLess(FormatUnix(a), FormatUnix(b)) <==> a < b
  }

  lemma LastSecond(year: int, next: int)
    requires next == year + 1
    ensures ToSeconds(Civil(year, 12, 31, 23, 59, 59)) == YearStart(next) - 1
  {
    YearLength(year);
  }

  // The text of a civil time starts with its year.
  lemma PrintedYear(c: Civil) returns (rest: string)
    requires Valid(c)
    ensures FormatUnix(ToSeconds(c)) == YearText(c.year) + rest
  {
    SecondsRoundTrip(c);
    rest := "-" + (Pad(2, c.month) + ("-" + (Pad(2, c.day) + ClockText(c))));
  }

  // The printed last second of a year and first second of the next start with those years.
  lemma TurnOfYear(year: int, next: int) returns (last: string, first: string)
    requires next == year + 1
    ensures FormatUnix(YearStart(next) - 1) == YearText(year) + last
    ensures FormatUnix(YearStart(next)) == YearText(next) + first
  {
    LastSecond(year, next);
    last := PrintedYear(Civil(year, 12, 31, 23, 59, 59));
    first := PrintedYear(Civil(next, 1, 1, 0, 0, 0));
  }

  lemma FirstCharacterDecides(a: string, b: string, s: string, t: string)
    requires a != "" && b != "" && b[0] < a[0]
    ensures !LexLess(a + s, b + t)
  {
    assert (a + s)[0] == a[0] && (b + t)[0] == b[0];
  }

  // The second after 9999-12-31T23:59:59Z prints as a smaller string.
  lemma YearTenThousandMisorders()
    ensures !LexLess(FormatUnix(YearStart(10000) - 1), FormatUnix(YearStart(10000)))
  {
    var s, t := TurnOfYear(9999, 10000);
    PadNines();
    TenThousandText();
    FirstCharacterDecides(YearText(9999), YearText(10000), s, t);
  }

  lemma PadNines()
    ensures YearText(9999) == "9999"
  {
    assert Pow10(4) == 10000;
    assert Pad(1, 9) == Pad(0, 0) + [Digit(9)];
    assert Pad(2, 99) == Pad(1, 9) + [Digit(9)];
    assert Pad(3, 999) == Pad(2, 99) + [Digit(9)];
  }

  lemma TenThousandText()
    ensures YearText(10000) == "10000"
  {
    assert Pow10(4) == 10000 && Pow10(3) == 1000 && Pow10(2) == 100 && Pow10(1) == 10 && Pow10(0) == 1;
    assert AtLeast(0, 1) == AtLeast(0, 0) + [Digit(1)];
    assert AtLeast(1, 10) == AtLeast(0, 1) + [Digit(0)];
    assert AtLeast(2, 100) == AtLeast(1, 10) + [Digit(0)];
    assert AtLeast(3, 1000) == AtLeast(2, 100) + [Digit(0)];
  }

  lemma NegativeYearsRunBackwards(y: int, s: string, t: string)
    requires -9999 < y < 0
    ensures !LexLess(YearText(y - 1) + s, YearText(y) + t)
  {
    assert Pow10(4) == 10000;
    var p, q := Pad(4, -y), Pad(4, 1 - y);
    PadOrder(4, -y, 1 - y);
    LexIrreflexive("-");
    LexConcat("-", "-", p, q);
    LexConcat("-" + p, "-" + q, t, s);
    LexAsymmetric(YearText(y) + t, YearText(y - 1) + s);
  }

  // Before the year 0 every year starts with a smaller string than the one that ended just before,
  // as long as the years have four digits.
  lemma NegativeYearsMisorder(y: int)
    requires -9999 < y < 0
    ensures !LexLess(FormatUnix(YearStart(y) - 1), FormatUnix(YearStart(y)))
  {
    var s, t := TurnOfYear(y - 1, y);
    NegativeYearsRunBackwards(y, s, t);
  }

  lemma FaithfulInside(lo: int, hi: int)
    ensures YearStart(-1) <= lo && hi <= YearStart(10000) ==> OrderFaithful(lo, hi)
  {
    if YearStart(-1) <= lo && hi <= YearStart(10000) {
      forall a, b {:trigger FormatUnix(a), FormatUnix(b)} | lo <= a < hi && lo <= b < hi
        ensures LexLess(FormatUnix(a), FormatUnix(b)) <==> a < b
      {
        OrderInYears(a, b);
      }
    }
  }

  lemma UnfaithfulAfter(lo: int, hi: int)
    requires lo <= 0
    ensures YearStart(10000) < hi ==> !OrderFaithful(lo, hi)
  {
    YearTenThousandMisorders();
  }

  lemma UnfaithfulBefore(lo: int, hi: int)
    requires 0 < hi
    ensures lo < YearStart(-1) ==> !OrderFaithful(lo, hi)
  {
    NegativeYearsMisorder(-1);
  }

  // The exact range: an interval around the epoch is safe for string comparison if and only if it
  // stays within years -1 to 9999.
  lemma FaithfulRange(lo: int, hi: int)
    requires lo <= 0 < hi
    ensures OrderFaithful(lo, hi) <==> YearStart(-1) <= lo && hi <= YearStart(10000)
  {
    FaithfulInside(lo, hi);
    UnfaithfulAfter(lo, hi);
    UnfaithfulBefore(lo, hi);
  }
}
