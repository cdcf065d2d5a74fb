/** The parts of ECMA-262's Date objects that expirypulse's route and results
    table depend on: time values, the year/month/day abstract operations (Day,
    DayFromYear, MakeDay, and YearFromDay, MonthFromDayInYear and DateOfDay,
    which are the standard's YearFromTime, MonthFromTime and DateFromTime taken
    on day numbers), the string that `Date.prototype.toISOString` builds
    (section 21.4.4.36), and the subset of the Date Time String Format that
    `new Date(string)` must read exactly. Months are numbered from 0, as in
    ECMA-262. */
module EcmaDate {

  import opened Options

  const MsPerSecond: int := 1000
  const MsPerMinute: int := 60000
  const MsPerHour: int := 3600000
  const MsPerDay: int := 86400000

  /** TimeClip's bound: |t| <= 8.64e15 ms, i.e. 10^8 days either side of the epoch. */
  const MaxTime: int := 8640000000000000

  /** A finite time value: integral milliseconds since 1970-01-01T00:00:00Z. */
  type TimeValue = t: int | -MaxTime <= t <= MaxTime

  /** Day(t) = floor(t / msPerDay); Dafny's `/` floors for a positive divisor. */
  function Day(t: int): (d: int)
    ensures MsPerDay * d <= t < MsPerDay * (d + 1)
  {
    t / MsPerDay
  }

  /** Midnight UTC at the start of t's day; still a time value, since the
      range ends on day boundaries. */
  function DayStart(t: TimeValue): (s: TimeValue)
    ensures s == MsPerDay * Day(t) && s <= t < s + MsPerDay
  {
    var d := Day(t);
    assert -100000000 <= d <= 100000000;
    MsPerDay * d
  }

  /** TimeWithinDay(t) = t modulo msPerDay. */
  function TimeWithinDay(t: int): (w: int)
    ensures 0 <= w < MsPerDay
    ensures t == MsPerDay * Day(t) + w
  {
    t % MsPerDay
  }

  // ---------------------------------------------------------------- years

  function DaysInYear(y: int): int {
    if y % 4 != 0 then 365
    else if y % 100 != 0 then 366
    else if y % 400 != 0 then 365
    else 366
  }

  /** InLeapYear as a number, 0 or 1. */
  function LeapDay(y: int): int {
    if DaysInYear(y) == 366 then 1 else 0
  }

  function DayFromYear(y: int): int {
    365 * (y - 1970) + (y - 1969) / 4 - (y - 1901) / 100 + (y - 1601) / 400
  }

  /** One floor-quotient step: floor((a+1)/n) - floor(a/n) is 1 exactly when n divides a+1. */
  lemma FloorStep4(a: int)
    ensures (a + 1) / 4 - a / 4 == if (a + 1) % 4 == 0 then 1 else 0
  {
  }

  lemma FloorStep100(a: int)
    ensures (a + 1) / 100 - a / 100 == if (a + 1) % 100 == 0 then 1 else 0
  {
  }

  lemma FloorStep400(a: int)
    ensures (a + 1) / 400 - a / 400 == if (a + 1) % 400 == 0 then 1 else 0
  {
  }

  /** The leap-day terms of DayFromYear step by one exactly on multiples of 4, 100, 400. */
  lemma LeapTermsStep(y: int)
    ensures (y - 1968) / 4 - (y - 1969) / 4 == if y % 4 == 0 then 1 else 0
    ensures (y - 1900) / 100 - (y - 1901) / 100 == if y % 100 == 0 then 1 else 0
    ensures (y - 1600) / 400 - (y - 1601) / 400 == if y % 400 == 0 then 1 else 0
  {
    FloorStep4(y - 1969);
    FloorStep100(y - 1901);
    FloorStep400(y - 1601);
    assert (y - 1968) % 4 == y % 4;
    assert (y - 1900) % 100 == y % 100;
    assert (y - 1600) % 400 == y % 400;
  }

  /** A multiple of 400 is one of 100, and a multiple of 100 is one of 4. */
  lemma DivisibilityChain(y: int)
    ensures y % 400 == 0 ==> y % 100 == 0
    ensures y % 100 == 0 ==> y % 4 == 0
  {
    if y % 400 == 0 {
      var k := y / 400;
      assert y == 100 * (4 * k);
    }
    if y % 100 == 0 {
      var k := y / 100;
      assert y == 4 * (25 * k);
    }
  }

  /** Consecutive years are DaysInYear apart. */
  lemma NextYearStart(y: int)
    ensures DayFromYear(y + 1) == DayFromYear(y) + DaysInYear(y)
  {
    LeapTermsStep(y);
    DivisibilityChain(y);
    var a := (y - 1968) / 4 - (y - 1969) / 4;
    var b := (y - 1900) / 100 - (y - 1901) / 100;
    var c := (y - 1600) / 400 - (y - 1601) / 400;
    assert DayFromYear(y + 1) - DayFromYear(y) == 365 + a - b + c;
  }

  /** Years starting 400*q after 2000 are whole Gregorian cycles of 146097 days. */
  lemma CycleStart(q: int)
    ensures DayFromYear(2000 + 400 * q) == 10957 + 146097 * q
  {
    assert (31 + 400 * q) / 4 == 7 + 100 * q;
    assert (99 + 400 * q) / 100 == 4 * q;
    assert (399 + 400 * q) / 400 == q;
  }

  /** DayFromYear is strictly increasing. */
  lemma {:induction false} DayFromYearMonotone(y1: int, y2: int)
    requires y1 < y2
    ensures DayFromYear(y1) < DayFromYear(y2)
    decreases y2 - y1
  {
    NextYearStart(y1);
    if y1 + 1 < y2 {
      DayFromYearMonotone(y1 + 1, y2);
    }
  }

  /** Linear search upwards from a year known to start no later than day d. */
  function YearSearch(d: int, y: int): (r: int)
    requires DayFromYear(y) <= d
    ensures y <= r
    ensures DayFromYear(r) <= d < DayFromYear(r + 1)
    decreases d - DayFromYear(y)
  {
    NextYearStart(y);
    if d < DayFromYear(y + 1) then y else YearSearch(d, y + 1)
  }

  /** The year containing day d: DayFromYear(y) <= d < DayFromYear(y + 1). */
  function YearFromDay(d: int): (y: int)
    ensures DayFromYear(y) <= d < DayFromYear(y + 1)
  {
    var q := (d - 10957) / 146097;
    CycleStart(q);
    YearSearch(d, 2000 + 400 * q)
  }

  /** ECMA-262's YearFromTime is "the largest y such that TimeFromYear(y) <= t";
      YearFromDay(Day(t)) is that year. */
  lemma YearFromTimeIsLargest(t: int, y: int)
    ensures MsPerDay * DayFromYear(y) <= t <==> y <= YearFromDay(Day(t))
  {
    var yt := YearFromDay(Day(t));
    if y <= yt {
      if y < yt { DayFromYearMonotone(y, yt); }
    } else {
      if yt + 1 < y { DayFromYearMonotone(yt + 1, y); }
    }
  }

  /** A year interval determines its year. */
  lemma YearFromDayUnique(d: int, y: int)
    requires DayFromYear(y) <= d < DayFromYear(y + 1)
    ensures YearFromDay(d) == y
  {
    var r := YearFromDay(d);
    if r < y {
      if r + 1 < y { DayFromYearMonotone(r + 1, y); }
    } else if y < r {
      if y + 1 < r { DayFromYearMonotone(y + 1, r); }
    }
  }

  /** Every time value lies in a year of at most six digits. */
  lemma YearOfTimeValueBounds(t: TimeValue)
    ensures -999999 <= YearFromDay(Day(t)) <= 999999
  {
    var d := Day(t);
    assert -100000000 <= d <= 100000000;
    var y := YearFromDay(d);
    assert DayFromYear(300000) > 100000000;
    assert DayFromYear(-300000) < -100000000;
    if y >= 300000 {
      if y > 300000 { DayFromYearMonotone(300000, y); }
    }
    if y < -300000 {
      DayFromYearMonotone(y + 1, -300000 + 1);
      NextYearStart(-300000);
    }
  }

  // --------------------------------------------------------------- months

  /** Day-within-year on which month m (0..11) starts; month 12 is the year's end. */
  function MonthStart(m: int, leap: int): int
    requires 0 <= m <= 12
  {
    [0, 31, 59, 90, 120, 151, 181, 212, 243, 273, 304, 334, 365][m] + (if m >= 2 then leap else 0)
  }

  function DaysInMonth(y: int, m: int): (n: int)
    requires 0 <= m < 12
    ensures 28 <= n <= 31
  {
    MonthStart(m + 1, LeapDay(y)) - MonthStart(m, LeapDay(y))
  }

  /** MonthFromTime's table, on the day within the year. */
  function MonthFromDayInYear(dy: int, leap: int): (m: int)
    requires 0 <= leap <= 1 && 0 <= dy < 365 + leap
    ensures 0 <= m < 12
    ensures MonthStart(m, leap) <= dy < MonthStart(m + 1, leap)
  {
    if dy < 31 then 0
    else if dy < 59 + leap then 1
    else if dy < 90 + leap then 2
    else if dy < 120 + leap then 3
    else if dy < 151 + leap then 4
    else if dy < 181 + leap then 5
    else if dy < 212 + leap then 6
    else if dy < 243 + leap then 7
    else if dy < 273 + leap then 8
    else if dy < 304 + leap then 9
    else if dy < 334 + leap then 10
    else 11
  }

  /** A month interval determines its month. */
  lemma MonthFromDayInYearUnique(dy: int, leap: int, m: int)
    requires 0 <= leap <= 1 && 0 <= m < 12
    requires MonthStart(m, leap) <= dy < MonthStart(m + 1, leap)
    ensures MonthFromDayInYear(dy, leap) == m
  {
  }

  // ------------------------------------------------------- calendar dates

  /** A UTC calendar date; month counts from 0 and day from 1. */
  datatype CalendarDate = CalendarDate(year: int, month: int, day: int)

  predicate ValidDate(c: CalendarDate) {
    0 <= c.month < 12 && 1 <= c.day <= DaysInMonth(c.year, c.month)
  }

  /** MakeDay(year, month, date) for a month in 0..11; a date past the month's
      end runs on into the next months, as in ECMA-262. */
  function MakeDay(year: int, month: int, date: int): int
    requires 0 <= month < 12
  {
    DayFromYear(year) + MonthStart(month, LeapDay(year)) + date - 1
  }

  /** The calendar date of day number d (YearFromTime, MonthFromTime, DateFromTime). */
  function DateOfDay(d: int): (c: CalendarDate)
    ensures ValidDate(c)
    ensures MakeDay(c.year, c.month, c.day) == d
  {
    var y := YearFromDay(d);
    NextYearStart(y);
    var leap := LeapDay(y);
    var dy := d - DayFromYear(y);
    var m := MonthFromDayInYear(dy, leap);
    CalendarDate(y, m, dy - MonthStart(m, leap) + 1)
  }

  /** MakeDay is injective on valid dates: DateOfDay undoes it. */
  lemma DateOfMakeDay(c: CalendarDate)
    requires ValidDate(c)
    ensures DateOfDay(MakeDay(c.year, c.month, c.day)) == c
  {
    var d := MakeDay(c.year, c.month, c.day);
    NextYearStart(c.year);
    YearFromDayUnique(d, c.year);
    MonthFromDayInYearUnique(d - DayFromYear(c.year), LeapDay(c.year), c.month);
  }

  // ------------------------------------------------------------- digits

  predicate IsDigit(c: char) {
    '0' <= c <= '9'
  }

  predicate AllDigits(s: string) {
    forall k :: 0 <= k < |s| ==> IsDigit(s[k])
  }

  function Pow10(n: nat): (p: nat)
    ensures p >= 1
  {
    if n == 0 then 1 else 10 * Pow10(n - 1)
  }

  function DigitChar(n: int): (c: char)
    requires 0 <= n < 10
    ensures IsDigit(c) && c as int - '0' as int == n
  {
    ('0' as int + n) as char
  }

  /** n written in decimal with exactly `width` digits, zero-padded on the left. */
  function Digits(n: nat, width: nat): (s: string)
    ensures |s| == width && AllDigits(s)
  {
    if width == 0 then [] else Digits(n / 10, width - 1) + [DigitChar(n % 10)]
  }

  /** The number a string of decimal digits denotes. */
  function DigitsValue(s: string): (v: nat)
    requires AllDigits(s)
    ensures v < Pow10(|s|)
  {
    if s == [] then 0
    else 10 * DigitsValue(s[..|s| - 1]) + (s[|s| - 1] as int - '0' as int)
  }

  /** Reading back a zero-padded decimal gives the number written. */
  lemma {:induction false} DigitsRoundTrip(n: nat, width: nat)
    requires n < Pow10(width)
    ensures DigitsValue(Digits(n, width)) == n
  {
    if width > 0 {
      DigitsRoundTrip(n / 10, width - 1);
      var s := Digits(n, width);
      assert s[..|s| - 1] == Digits(n / 10, width - 1);
    }
  }

  // ------------------------------------------------------------ formatting

  /** The year field of the Date Time String Format: four digits for 0..9999,
      otherwise a sign and six digits (the expanded years). */
  function YearString(y: int): (s: string)
    requires -999999 <= y <= 999999
    ensures |s| == 4 || |s| == 7
    ensures 'T' !in s
  {
    if 0 <= y <= 9999 then Digits(y, 4)
    else (if y < 0 then "-" else "+") + Digits(if y < 0 then -y else y, 6)
  }

  /** -MM-DD, each field zero-padded. */
  function MonthDayText(mo: nat, d: nat): (s: string)
    ensures |s| == 6 && 'T' !in s
  {
    "-" + Digits(mo, 2) + "-" + Digits(d, 2)
  }

  /** YYYY-MM-DD (or ±YYYYYY-MM-DD) with the month written from 1. */
  function DateString(c: CalendarDate): (s: string)
    requires -999999 <= c.year <= 999999 && ValidDate(c)
    ensures 'T' !in s
    ensures |s| == 10 || |s| == 13
  {
    YearString(c.year) + MonthDayText(c.month + 1, c.day)
  }

  /** HH:mm:ss, each field zero-padded. */
  function ClockText(hh: nat, mm: nat, ss: nat): (s: string)
    ensures |s| == 8 && s[0] != 'T' && s[2] == ':' && s[5] == ':'
  {
    Digits(hh, 2) + ":" + Digits(mm, 2) + ":" + Digits(ss, 2)
  }

  /** HH:mm:ss.sss, each field zero-padded. */
  function TimeText(hh: nat, mm: nat, ss: nat, sss: nat): (s: string)
    ensures |s| == 12 && s[0] != 'T' && s[2] == ':' && s[5] == ':' && s[8] == '.'
  {
    ClockText(hh, mm, ss) + "." + Digits(sss, 3)
  }

  /** HH:mm:ss.sss of the time within the day. */
  function TimeString(w: int): (s: string)
    requires 0 <= w < MsPerDay
    ensures |s| == 12 && s[0] != 'T'
  {
    TimeText(w / MsPerHour, w / MsPerMinute % 60, w / MsPerSecond % 60, w % MsPerSecond)
  }

  /** The calendar date of a time value, in UTC. */
  function UtcDate(t: TimeValue): (c: CalendarDate)
    ensures ValidDate(c) && -999999 <= c.year <= 999999
    ensures MakeDay(c.year, c.month, c.day) == Day(t)
  {
    YearOfTimeValueBounds(t);
    DateOfDay(Day(t))
  }

  /** `new Date(t).toISOString()`: the date, "T", the time, "Z". It is 24
      characters long, or 27 for an expanded year, and the first "T" follows
      the UTC date. */
  function ToIsoString(t: TimeValue): (s: string)
    ensures |s| == 24 || |s| == 27
    ensures var date := DateString(UtcDate(t));
            s[..|date|] == date && s[|date|] == 'T' && s[|s| - 1] == 'Z'
  {
    DateString(UtcDate(t)) + ("T" + TimeString(TimeWithinDay(t)) + "Z")
  }

  // --------------------------------------------------------------- parsing

  /** How the Date Time String Format reads a string: not an instance of the
      modelled forms, or an instance whose value is a time value or NaN (None). */
  datatype FormatReading = NotInFormat | InFormat(value: Option<TimeValue>)

  /** Digits at positions i .. i+n of s, read as a number. */
  predicate DigitsAt(s: string, i: nat, n: nat) {
    i + n <= |s| && AllDigits(s[i..i + n])
  }

  function ValueAt(s: string, i: nat, n: nat): nat
    requires DigitsAt(s, i, n)
  {
    DigitsValue(s[i..i + n])
  }

  /** The year field at the start of s and its length: four digits, or a sign
      and six digits; "-000000" is not a year. */
  function ParseYear(s: string): Option<(int, nat)> {
    if |s| >= 7 && (s[0] == '+' || s[0] == '-') && DigitsAt(s, 1, 6) then
      var v: int := ValueAt(s, 1, 6);
      var len: nat := 7;
      if s[0] == '-' && v == 0 then None
      else Some((if s[0] == '-' then -v else v, len))
    else if DigitsAt(s, 0, 4) then Some((ValueAt(s, 0, 4), 4))
    else None
  }

  /** TimeClip on an integral time: NaN (None) outside the range. */
  function TimeClip(t: int): (r: Option<TimeValue>)
    ensures r.Some? <==> -MaxTime <= t <= MaxTime
    ensures r.Some? ==> r.value == t
  {
    if -MaxTime <= t <= MaxTime then Some(t) else None
  }

  /** The value of date and time fields in range (month and day from 1). */
  function FieldsValue(y: int, mo: int, d: int, h: int, mi: int, sec: int, ms: int): Option<TimeValue> {
    if 1 <= mo <= 12 && 1 <= d <= 31 && 0 <= h <= 24 && 0 <= mi <= 59 && 0 <= sec <= 59
       && (h == 24 ==> mi == 0 && sec == 0 && ms == 0)
    then TimeClip(MsPerDay * MakeDay(y, mo - 1, d) + MsPerHour * h + MsPerMinute * mi + MsPerSecond * sec + ms)
    else None
  }

  /** "-MM-DD": the month and the day, as written. */
  function ReadDatePart(r: string): Option<(int, int)> {
    if |r| == 6 && r[0] == '-' && DigitsAt(r, 1, 2) && r[3] == '-' && DigitsAt(r, 4, 2)
    then Some((ValueAt(r, 1, 2), ValueAt(r, 4, 2)))
    else None
  }

  /** Hours, minutes, seconds and milliseconds of a time of day. */
  datatype TimeFields = TimeFields(hour: int, minute: int, second: int, millisecond: int)

  /** "HH:mm:ss" or "HH:mm:ss.sss". */
  function ReadTimePart(r: string): Option<TimeFields> {
    if (|r| == 8 || |r| == 12) && DigitsAt(r, 0, 2) && r[2] == ':' && DigitsAt(r, 3, 2)
       && r[5] == ':' && DigitsAt(r, 6, 2) && (|r| == 12 ==> r[8] == '.' && DigitsAt(r, 9, 3))
    then Some(TimeFields(ValueAt(r, 0, 2), ValueAt(r, 3, 2), ValueAt(r, 6, 2),
                         if |r| == 12 then ValueAt(r, 9, 3) else 0))
    else None
  }

  /** The forms of the Date Time String Format read exactly: a date alone (UTC
      midnight), and a date with "T", a time with or without milliseconds, and "Z". */
  function ReadDateTimeString(s: string): (r: FormatReading)
  {
    match ParseYear(s)
    case None => NotInFormat
    case Some((y, n)) =>
      var rest := s[n..];
      if |rest| < 6 then NotInFormat
      else
        match ReadDatePart(rest[..6])
        case None => NotInFormat
        case Some((mo, d)) =>
          var tail := rest[6..];
          if tail == [] then InFormat(FieldsValue(y, mo, d, 0, 0, 0, 0))
          else if |tail| >= 2 && tail[0] == 'T' && tail[|tail| - 1] == 'Z' then
            match ReadTimePart(tail[1..|tail| - 1])
            case None => NotInFormat
            case Some(f) => InFormat(FieldsValue(y, mo, d, f.hour, f.minute, f.second, f.millisecond))
          else NotInFormat
  }

  /** `new Date(s).getTime()`, None for NaN. Strings outside the modelled forms
      go to `other`, which stands for the implementation-specific formats and
      heuristics the standard permits. */
  function Parse(s: string, other: string -> Option<TimeValue>): (r: Option<TimeValue>)
    ensures ReadDateTimeString(s).InFormat? ==> r == ReadDateTimeString(s).value
  {
    match ReadDateTimeString(s)
    case InFormat(v) => v
    case NotInFormat => other(s)
  }

  /** A string in the standard format never consults the implementation-defined
      parser. */
  lemma ParseInFormatIgnoresOther(s: string, o1: string -> Option<TimeValue>, o2: string -> Option<TimeValue>)
    requires ReadDateTimeString(s).InFormat?
    ensures Parse(s, o1) == Parse(s, o2)
  {
  }

  /** The year-only and year-month forms of the standard (`YYYY`, `YYYY-MM`)
      are outside the modelled subset: they go to the implementation-defined
      parser. */
  lemma YearMonthFormsGoToOther(y: int, mo: nat, other: string -> Option<TimeValue>)
    requires -999999 <= y <= 999999 && mo < 100
    ensures Parse(YearString(y), other) == other(YearString(y))
    ensures Parse(YearString(y) + ("-" + Digits(mo, 2)), other) == other(YearString(y) + ("-" + Digits(mo, 2)))
  {
    ParseYearString(y, []);
    assert YearString(y) + [] == YearString(y);
    assert YearString(y)[|YearString(y)|..] == [];
    var ym := YearString(y) + ("-" + Digits(mo, 2));
    ParseYearString(y, "-" + Digits(mo, 2));
    assert ym[|YearString(y)|..] == "-" + Digits(mo, 2);
  }

  // ----------------------------------------------------------- round trips

  /** The hour, minute, second and millisecond fields put back together give
      the time within the day. */
  lemma TimeFieldsRecompose(w: int)
    requires 0 <= w < MsPerDay
    ensures MsPerHour * (w / MsPerHour) + MsPerMinute * (w / MsPerMinute % 60)
            + MsPerSecond * (w / MsPerSecond % 60) + w % MsPerSecond == w
  {
    var ms := w % 1000;
    var sTotal := w / 1000;
    assert w == 1000 * sTotal + ms;
    var mTotal := sTotal / 60;
    assert sTotal == 60 * mTotal + sTotal % 60;
    assert w / 60000 == mTotal;
    var h := mTotal / 60;
    assert mTotal == 60 * h + mTotal % 60;
    assert w / 3600000 == h;
  }

  /** Each field of a time within the day fits its width. */
  lemma TimeFieldsBounded(w: int)
    requires 0 <= w < MsPerDay
    ensures 0 <= w / MsPerHour < 24 && 0 <= w / MsPerMinute % 60 < 60
    ensures 0 <= w / MsPerSecond % 60 < 60 && 0 <= w % MsPerSecond < 1000
  {
  }

  /** The year field is read back from the front of any string it starts. */
  lemma ParseYearString(y: int, rest: string)
    requires -999999 <= y <= 999999
    ensures ParseYear(YearString(y) + rest) == Some((y, |YearString(y)|))
  {
    var ys := YearString(y);
    var s := ys + rest;
    assert Pow10(4) == 10000 && Pow10(6) == 1000000;
    if 0 <= y <= 9999 {
      assert s[..4] == ys;
      DigitsRoundTrip(y, 4);
      assert IsDigit(ys[0]);
    } else {
      var a := if y < 0 then -y else y;
      assert s[1..7] == Digits(a, 6);
      DigitsRoundTrip(a, 6);
    }
  }

  /** Digits written inside a longer string are read back from their position. */
  lemma FieldIn(pre: string, v: nat, n: nat, post: string)
    requires v < Pow10(n)
    ensures DigitsAt(pre + Digits(v, n) + post, |pre|, n)
    ensures ValueAt(pre + Digits(v, n) + post, |pre|, n) == v
  {
    assert (pre + Digits(v, n) + post)[|pre|..|pre| + n] == Digits(v, n);
    DigitsRoundTrip(v, n);
  }

  /** "-MM-DD" reads back as the month (from 1) and the day. */
  lemma ReadDatePartOf(mo: nat, d: nat)
    requires mo < 100 && d < 100
    ensures ReadDatePart(MonthDayText(mo, d)) == Some((mo, d))
  {
    assert Pow10(2) == 100;
    var r := MonthDayText(mo, d);
    FieldIn("-", mo, 2, "-" + Digits(d, 2));
    assert r == "-" + Digits(mo, 2) + ("-" + Digits(d, 2));
    FieldIn("-" + Digits(mo, 2) + "-", d, 2, []);
    assert r == "-" + Digits(mo, 2) + "-" + Digits(d, 2) + [];
  }

  /** Digits written at position i are read back from there. */
  lemma FieldAt(s: string, i: nat, v: nat, n: nat)
    requires v < Pow10(n) && i + n <= |s| && s[i..i + n] == Digits(v, n)
    ensures DigitsAt(s, i, n) && ValueAt(s, i, n) == v
  {
    DigitsRoundTrip(v, n);
  }

  lemma ClockHour(hh: nat, mm: nat, ss: nat, post: string)
    requires hh < 100
    ensures DigitsAt(ClockText(hh, mm, ss) + post, 0, 2) && ValueAt(ClockText(hh, mm, ss) + post, 0, 2) == hh
  {
    assert Pow10(2) == 100;
    var s := ClockText(hh, mm, ss) + post;
    assert s[0..2] == Digits(hh, 2);
    FieldAt(s, 0, hh, 2);
  }

  lemma ClockMinute(hh: nat, mm: nat, ss: nat, post: string)
    requires mm < 100
    ensures DigitsAt(ClockText(hh, mm, ss) + post, 3, 2) && ValueAt(ClockText(hh, mm, ss) + post, 3, 2) == mm
  {
    assert Pow10(2) == 100;
    var s := ClockText(hh, mm, ss) + post;
    assert s[3..5] == Digits(mm, 2);
    FieldAt(s, 3, mm, 2);
  }

  lemma ClockSecond(hh: nat, mm: nat, ss: nat, post: string)
    requires ss < 100
    ensures DigitsAt(ClockText(hh, mm, ss) + post, 6, 2) && ValueAt(ClockText(hh, mm, ss) + post, 6, 2) == ss
  {
    assert Pow10(2) == 100;
    var s := ClockText(hh, mm, ss) + post;
    assert s[6..8] == Digits(ss, 2);
    FieldAt(s, 6, ss, 2);
  }

  lemma TimeTextMillisecond(hh: nat, mm: nat, ss: nat, sss: nat)
    requires sss < 1000
    ensures DigitsAt(TimeText(hh, mm, ss, sss), 9, 3) && ValueAt(TimeText(hh, mm, ss, sss), 9, 3) == sss
  {
    assert Pow10(3) == 1000;
    FieldIn(ClockText(hh, mm, ss) + ".", sss, 3, []);
    assert TimeText(hh, mm, ss, sss) == ClockText(hh, mm, ss) + "." + Digits(sss, 3) + [];
  }

  /** "HH:mm:ss.sss" reads back as its four fields. */
  lemma ReadTimePartOf(hh: nat, mm: nat, ss: nat, sss: nat)
    requires hh < 100 && mm < 100 && ss < 100 && sss < 1000
    ensures ReadTimePart(TimeText(hh, mm, ss, sss)) == Some(TimeFields(hh, mm, ss, sss))
  {
    var post := "." + Digits(sss, 3);
    assert TimeText(hh, mm, ss, sss) == ClockText(hh, mm, ss) + post;
    ClockHour(hh, mm, ss, post);
    ClockMinute(hh, mm, ss, post);
    ClockSecond(hh, mm, ss, post);
    TimeTextMillisecond(hh, mm, ss, sss);
  }

  /** "HH:mm:ss" reads back as its fields, with no milliseconds. */
  lemma ReadClockPartOf(hh: nat, mm: nat, ss: nat)
    requires hh < 100 && mm < 100 && ss < 100
    ensures ReadTimePart(ClockText(hh, mm, ss)) == Some(TimeFields(hh, mm, ss, 0))
  {
    assert ClockText(hh, mm, ss) + [] == ClockText(hh, mm, ss);
    ClockHour(hh, mm, ss, []);
    ClockMinute(hh, mm, ss, []);
    ClockSecond(hh, mm, ss, []);
  }

  /** The reading of a year followed by a date part and nothing else. */
  lemma ReadDateOnly(s: string, y: int, n: nat, mo: int, d: int)
    requires ParseYear(s) == Some((y, n)) && n + 6 == |s|
    requires ReadDatePart(s[n..]) == Some((mo, d))
    ensures ReadDateTimeString(s) == InFormat(FieldsValue(y, mo, d, 0, 0, 0, 0))
  {
    assert s[n..][..6] == s[n..] && s[n..][6..] == [];
  }

  /** The reading of a year, a date part, "T", a time and "Z". */
  lemma ReadDateAndTime(s: string, y: int, n: nat, mo: int, d: int, time: string, f: TimeFields)
    requires ParseYear(s) == Some((y, n)) && n + 6 <= |s|
    requires ReadDatePart(s[n..n + 6]) == Some((mo, d))
    requires s[n + 6..] == "T" + time + "Z" && ReadTimePart(time) == Some(f)
    ensures ReadDateTimeString(s) == InFormat(FieldsValue(y, mo, d, f.hour, f.minute, f.second, f.millisecond))
  {
    var tail := s[n + 6..];
    assert s[n..][..6] == s[n..n + 6] && s[n..][6..] == tail;
    assert tail[1..|tail| - 1] == time;
  }

  /** Midnight of a valid date in range is its day number in milliseconds. */
  lemma MidnightValue(c: CalendarDate)
    requires ValidDate(c)
    requires -MaxTime <= MsPerDay * MakeDay(c.year, c.month, c.day) <= MaxTime
    ensures FieldsValue(c.year, c.month + 1, c.day, 0, 0, 0, 0) == Some(MsPerDay * MakeDay(c.year, c.month, c.day))
  {
  }

  /** A date string reads back as midnight UTC of that date. */
  lemma {:induction false} ReadDateString(c: CalendarDate)
    requires -999999 <= c.year <= 999999 && ValidDate(c)
    requires -MaxTime <= MsPerDay * MakeDay(c.year, c.month, c.day) <= MaxTime
    ensures ReadDateTimeString(DateString(c)) == InFormat(Some(MsPerDay * MakeDay(c.year, c.month, c.day)))
  {
    var ys := YearString(c.year);
    var rest := MonthDayText(c.month + 1, c.day);
    var s := DateString(c);
    ParseYearString(c.year, rest);
    assert s[|ys|..] == rest;
    ReadDatePartOf(c.month + 1, c.day);
    ReadDateOnly(s, c.year, |ys|, c.month + 1, c.day);
    MidnightValue(c);
  }

  /** The slices of a string made of three parts. */
  lemma ThreeParts(a: string, b: string, c: string)
    ensures (a + (b + c))[|a|..|a| + |b|] == b && (a + (b + c))[|a| + |b|..] == c
  {
    assert (a + (b + c))[|a|..] == b + c;
  }

  /** A date, "T", a time and "Z" read back as the value of their fields. */
  lemma {:induction false} ReadDateTimeOf(c: CalendarDate, time: string, f: TimeFields)
    requires -999999 <= c.year <= 999999 && ValidDate(c)
    requires ReadTimePart(time) == Some(f)
    ensures ReadDateTimeString(DateString(c) + ("T" + time + "Z"))
            == InFormat(FieldsValue(c.year, c.month + 1, c.day, f.hour, f.minute, f.second, f.millisecond))
  {
    var ys := YearString(c.year);
    var dp := MonthDayText(c.month + 1, c.day);
    var tail := "T" + time + "Z";
    var s := DateString(c) + tail;
    assert s == ys + (dp + tail);
    ParseYearString(c.year, dp + tail);
    var n := |ys|;
    ThreeParts(ys, dp, tail);
    ReadDatePartOf(c.month + 1, c.day);
    ReadDateAndTime(s, c.year, n, c.month + 1, c.day, time, f);
  }

  /** The fields of t's UTC date and time evaluate back to t. */
  lemma IsoFieldsValue(t: TimeValue)
    ensures var c, w := UtcDate(t), TimeWithinDay(t);
            FieldsValue(c.year, c.month + 1, c.day, w / MsPerHour, w / MsPerMinute % 60,
                        w / MsPerSecond % 60, w % MsPerSecond) == Some(t)
  {
    var c, w := UtcDate(t), TimeWithinDay(t);
    TimeFieldsRecompose(w);
    assert MsPerDay * MakeDay(c.year, c.month, c.day) + w == t;
  }

  /** `new Date(new Date(t).toISOString())` is t again: the ISO string loses nothing. */
  lemma {:induction false} ReadIsoString(t: TimeValue)
    ensures ReadDateTimeString(ToIsoString(t)) == InFormat(Some(t))
  {
    var c := UtcDate(t);
    var w := TimeWithinDay(t);
    var hh, mm, ss, sss := w / MsPerHour, w / MsPerMinute % 60, w / MsPerSecond % 60, w % MsPerSecond;
    TimeFieldsBounded(w);
    ReadTimePartOf(hh, mm, ss, sss);
    assert ToIsoString(t) == DateString(c) + ("T" + TimeText(hh, mm, ss, sss) + "Z");
    ReadDateTimeOf(c, TimeText(hh, mm, ss, sss), TimeFields(hh, mm, ss, sss));
    IsoFieldsValue(t);
  }

  /** `new Date(new Date(t).toISOString()).getTime()` is t. */
  lemma ParseIsoString(t: TimeValue, other: string -> Option<TimeValue>)
    ensures Parse(ToIsoString(t), other) == Some(t)
  {
    ReadIsoString(t);
  }

  /** `new Date("YYYY-MM-DD").getTime()` is midnight UTC of that date. */
  lemma ParseDateString(c: CalendarDate, other: string -> Option<TimeValue>)
    requires -999999 <= c.year <= 999999 && ValidDate(c)
    requires -MaxTime <= MsPerDay * MakeDay(c.year, c.month, c.day) <= MaxTime
    ensures Parse(DateString(c), other) == Some(MsPerDay * MakeDay(c.year, c.month, c.day))
  {
    ReadDateString(c);
  }

  /** A date with a UTC time of day before midnight denotes an instant on that date. */
  lemma UtcDateOfFields(c: CalendarDate, f: TimeFields)
    requires -999999 <= c.year <= 999999 && ValidDate(c)
    requires f.hour < 24 && 0 <= f.minute < 60 && 0 <= f.second < 60 && 0 <= f.millisecond < 1000
    requires FieldsValue(c.year, c.month + 1, c.day, f.hour, f.minute, f.second, f.millisecond).Some?
    ensures var v := FieldsValue(c.year, c.month + 1, c.day, f.hour, f.minute, f.second, f.millisecond).value;
            UtcDate(v) == c
  {
    var m := MakeDay(c.year, c.month, c.day);
    var r := MsPerHour * f.hour + MsPerMinute * f.minute + MsPerSecond * f.second + f.millisecond;
    var v := FieldsValue(c.year, c.month + 1, c.day, f.hour, f.minute, f.second, f.millisecond).value;
    assert 0 <= r < MsPerDay;
    assert v == MsPerDay * m + r;
    assert Day(v) == m;
    DateOfMakeDay(c);
  }
}
