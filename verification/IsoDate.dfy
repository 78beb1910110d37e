/** Instants as Date.prototype.toISOString writes them and Date.parse reads them
    back, in the calendar of ECMA-262 section 21.4.1. */
module IsoDate {
  import opened Prelude
  import opened Numerals

  const MS_PER_DAY := 86_400_000
  const MAX_TIME := 8_640_000_000_000_000

  /** DayFromYear: the day number of 1 January. */
  function DayFromYear(y: int): int {
    365 * (y - 1970) + (y - 1969) / 4 - (y - 1901) / 100 + (y - 1601) / 400
  }

  predicate IsLeap(y: int) {
    y % 4 == 0 && (y % 100 != 0 || y % 400 == 0)
  }

  function DaysInYear(y: int): int {
    if IsLeap(y) then 366 else 365
  }

  lemma FourthYears(y: int)
    ensures (y - 1968) / 4 == (y - 1969) / 4 + if y % 4 == 0 then 1 else 0
  {
  }

  lemma HundredthYears(y: int)
    ensures (y - 1900) / 100 == (y - 1901) / 100 + if y % 100 == 0 then 1 else 0
  {
  }

  lemma FourHundredthYears(y: int)
    ensures (y - 1600) / 400 == (y - 1601) / 400 + if y % 400 == 0 then 1 else 0
    ensures y % 400 == 0 ==> y % 100 == 0
    ensures y % 100 == 0 ==> y % 4 == 0
  {
  }

  lemma YearsAbut(y: int)
    ensures DayFromYear(y + 1) == DayFromYear(y) + DaysInYear(y)
  {
    FourthYears(y);
    HundredthYears(y);
    FourHundredthYears(y);
  }

  /** YearFromTime: the last year, from `y` on, whose first day is not after `day`. */
  function YearFrom(day: int, y: int): (year: int)
    requires DayFromYear(y) <= day
    ensures DayFromYear(year) <= day < DayFromYear(year) + DaysInYear(year)
    ensures y <= year
    decreases day - DayFromYear(y)
  {
    YearsAbut(y);
    if day < DayFromYear(y + 1) then y else YearFrom(day, y + 1)
  }

  lemma YearIsShort(y: int)
    requires DayFromYear(y) <= MAX_TIME / MS_PER_DAY
    ensures y <= 275760
  {
  }

  lemma FirstYear()
    ensures DayFromYear(-271821) <= -MAX_TIME / MS_PER_DAY
  {
  }

  /** The first day of a month, counted within its year; month 13 is the year's end. */
  function MonthStart(m: int, leap: bool): int
    requires 1 <= m <= 13
  {
    var extra := if leap then 1 else 0;
    match m
    case 1 => 0
    case 2 => 31
    case 3 => 59 + extra
    case 4 => 90 + extra
    case 5 => 120 + extra
    case 6 => 151 + extra
    case 7 => 181 + extra
    case 8 => 212 + extra
    case 9 => 243 + extra
    case 10 => 273 + extra
    case 11 => 304 + extra
    case 12 => 334 + extra
    case _ => 365 + extra
  }

  function MonthOf(d: int, leap: bool, m: int): (month: int)
    requires 1 <= m <= 12
    requires MonthStart(m, leap) <= d < MonthStart(13, leap)
    ensures m <= month <= 12
    ensures MonthStart(month, leap) <= d < MonthStart(month + 1, leap)
    decreases 13 - m
  {
    if d < MonthStart(m + 1, leap) then m else MonthOf(d, leap, m + 1)
  }

  datatype Fields = Fields(year: int, month: int, day: int, hour: int, minute: int, second: int, ms: int)

  predicate InCalendar(f: Fields) {
    && 1 <= f.month <= 12
    && 1 <= f.day <= MonthStart(f.month + 1, IsLeap(f.year)) - MonthStart(f.month, IsLeap(f.year))
    && 0 <= f.hour < 24 && 0 <= f.minute < 60 && 0 <= f.second < 60 && 0 <= f.ms < 1000
  }

  function FieldsOf(t: int): (f: Fields)
    requires -MAX_TIME <= t <= MAX_TIME
    ensures InCalendar(f) && -271821 <= f.year <= 275760
  {
    FirstYear();
    var day, rest := t / MS_PER_DAY, t % MS_PER_DAY;
    var y := YearFrom(day, -271821);
    YearIsShort(y);
    var leap := IsLeap(y);
    var d := day - DayFromYear(y);
    var m := MonthOf(d, leap, 1);
    Fields(y, m, d - MonthStart(m, leap) + 1,
           rest / 3_600_000, rest / 60_000 % 60, rest / 1000 % 60, rest % 1000)
  }

  /** MakeDate(MakeDay(year, month, day), MakeTime(hour, minute, second, ms)). */
  function TimeOf(f: Fields): int
    requires 1 <= f.month <= 12
  {
    (DayFromYear(f.year) + MonthStart(f.month, IsLeap(f.year)) + f.day - 1) * MS_PER_DAY +
    f.hour * 3_600_000 + f.minute * 60_000 + f.second * 1000 + f.ms
  }

  lemma Clock(rest: int)
    requires 0 <= rest < MS_PER_DAY
    ensures rest / 3_600_000 * 3_600_000 + rest / 60_000 % 60 * 60_000 + rest / 1000 % 60 * 1000 + rest % 1000 == rest
  {
    var minutes, seconds := rest / 60_000, rest / 1000;
    assert rest / 3_600_000 == minutes / 60;
    assert minutes == seconds / 60;
  }

  lemma TimeRoundTrip(t: int)
    requires -MAX_TIME <= t <= MAX_TIME
    ensures TimeOf(FieldsOf(t)) == t
  {
    Clock(t % MS_PER_DAY);
  }

  // ---------- the calendar, day by day ----------

  /** Thirty days hath September. */
  function MonthLength(y: int, m: int): (days: int)
    ensures days >= 28
  {
    if m == 2 then (if y % 400 == 0 || (y % 4 == 0 && y % 100 != 0) then 29 else 28)
    else if m in {4, 6, 9, 11} then 30
    else 31
  }

  /** The same time of day on the next date. */
  function NextDate(f: Fields): Fields {
    if f.day < MonthLength(f.year, f.month) then f.(day := f.day + 1)
    else if f.month < 12 then f.(month := f.month + 1, day := 1)
    else f.(year := f.year + 1, month := 1, day := 1)
  }

  lemma MonthsAbut(y: int, m: int)
    requires 1 <= m <= 12
    ensures MonthStart(m + 1, IsLeap(y)) == MonthStart(m, IsLeap(y)) + MonthLength(y, m)
    ensures m < 12 ==> MonthStart(m + 1, IsLeap(y)) < MonthStart(13, IsLeap(y))
  {
    FourHundredthYears(y);
  }

  lemma {:induction false} YearsIncrease(a: int, b: int)
    requires a <= b
    ensures DayFromYear(a) <= DayFromYear(b)
    ensures a < b ==> DayFromYear(a) + DaysInYear(a) <= DayFromYear(b)
    decreases b - a
  {
    if a < b {
      YearsAbut(a);
      hide DayFromYear;
      YearsIncrease(a + 1, b);
    }
  }

  lemma OneYear(day: int, a: int, b: int)
    requires DayFromYear(a) <= day < DayFromYear(a) + DaysInYear(a)
    requires DayFromYear(b) <= day < DayFromYear(b) + DaysInYear(b)
    ensures a == b
  {
    hide DayFromYear;
    YearsIncrease(if a < b then a else b, if a < b then b else a);
  }

  lemma OneMonth(d: int, leap: bool, a: int, b: int)
    requires 1 <= a <= 12 && MonthStart(a, leap) <= d < MonthStart(a + 1, leap)
    requires 1 <= b <= 12 && MonthStart(b, leap) <= d < MonthStart(b + 1, leap)
    ensures a == b
  {
  }

  lemma OneClock(rest: int, h: int, m: int, s: int, ms: int)
    requires 0 <= h < 24 && 0 <= m < 60 && 0 <= s < 60 && 0 <= ms < 1000
    requires rest == h * 3_600_000 + m * 60_000 + s * 1000 + ms
    ensures 0 <= rest < MS_PER_DAY
    ensures rest / 3_600_000 == h && rest / 60_000 % 60 == m && rest / 1000 % 60 == s && rest % 1000 == ms
  {
    assert rest / 1000 == h * 3600 + m * 60 + s;
    assert rest / 60_000 == h * 60 + m;
  }

  lemma DayAndClock(t: int, day: int, rest: int)
    requires t == day * MS_PER_DAY + rest && 0 <= rest < MS_PER_DAY
    ensures t / MS_PER_DAY == day && t % MS_PER_DAY == rest
  {
  }

  lemma WithinItsYear(f: Fields)
    requires InCalendar(f)
    ensures
      var d := MonthStart(f.month, IsLeap(f.year)) + f.day - 1;
      && 0 <= d < DaysInYear(f.year)
      && d < MonthStart(f.month + 1, IsLeap(f.year))
  {
    MonthsAbut(f.year, f.month);
  }

  /** A date and a time of day are those of one time only: `FieldsOf` undoes `TimeOf`. */
  lemma FieldsAreUnique(f: Fields)
    requires InCalendar(f) && -MAX_TIME <= TimeOf(f) <= MAX_TIME
    ensures FieldsOf(TimeOf(f)) == f
  {
    var t, g := TimeOf(f), FieldsOf(TimeOf(f));
    TimeRoundTrip(t);
    OneTime(f, g);
  }

  lemma OneTime(f: Fields, g: Fields)
    requires InCalendar(f) && InCalendar(g) && TimeOf(f) == TimeOf(g)
    ensures f == g
  {
    var df, dg := MonthStart(f.month, IsLeap(f.year)) + f.day - 1, MonthStart(g.month, IsLeap(g.year)) + g.day - 1;
    var rf := f.hour * 3_600_000 + f.minute * 60_000 + f.second * 1000 + f.ms;
    var rg := g.hour * 3_600_000 + g.minute * 60_000 + g.second * 1000 + g.ms;
    WithinItsYear(f);
    WithinItsYear(g);
    OneClock(rf, f.hour, f.minute, f.second, f.ms);
    OneClock(rg, g.hour, g.minute, g.second, g.ms);
    DayAndClock(TimeOf(f), DayFromYear(f.year) + df, rf);
    DayAndClock(TimeOf(f), DayFromYear(g.year) + dg, rg);
    hide DayFromYear, MonthStart, TimeOf, IsLeap;
    OneYear(DayFromYear(f.year) + df, f.year, g.year);
    OneMonth(df, IsLeap(f.year), f.month, g.month);
  }

  /** The calendar starts where ECMA-262 says. */
  lemma Epoch()
    ensures FieldsOf(0) == Fields(1970, 1, 1, 0, 0, 0, 0)
  {
    var f := Fields(1970, 1, 1, 0, 0, 0, 0);
    assert TimeOf(f) == 0;
    FieldsAreUnique(f);
  }

  /** A day later it is the next date, at the same time of day. */
  lemma NextDay(t: int)
    requires -MAX_TIME <= t && t + MS_PER_DAY <= MAX_TIME
    ensures FieldsOf(t + MS_PER_DAY) == NextDate(FieldsOf(t))
  {
    var f := FieldsOf(t);
    TimeRoundTrip(t);
    NextDateIsADayLater(f);
    hide FieldsOf, TimeOf, NextDate;
    FieldsAreUnique(NextDate(f));
  }

  lemma YearEnds(y: int)
    ensures MonthStart(1, IsLeap(y)) == 0 && MonthStart(13, IsLeap(y)) == DaysInYear(y)
  {
  }

  lemma NextDateIsADayLater(f: Fields)
    requires InCalendar(f)
    ensures InCalendar(NextDate(f)) && TimeOf(NextDate(f)) == TimeOf(f) + MS_PER_DAY
  {
    hide DayFromYear, IsLeap, MonthStart, MonthLength, DaysInYear;
    MonthsAbut(f.year, f.month);
    if f.day < MonthLength(f.year, f.month) {
    } else if f.month < 12 {
      MonthsAbut(f.year, f.month + 1);
    } else {
      YearsAbut(f.year);
      YearEnds(f.year);
      YearEnds(f.year + 1);
      MonthsAbut(f.year + 1, 1);
    }
  }

  /** And within a day the fields are the hours, minutes, seconds and milliseconds that
      have passed of it. */
  lemma ClockOf(t: int)
    requires -MAX_TIME <= t <= MAX_TIME
    ensures
      var f := FieldsOf(t);
      f.hour * 3_600_000 + f.minute * 60_000 + f.second * 1000 + f.ms == t % MS_PER_DAY
  {
    Clock(t % MS_PER_DAY);
  }

  // ---------- text ----------

  function Part(n: nat, width: nat, end: char): (s: string)
    requires IsPlainChar(end)
    ensures |s| == width + 1 && IsPlain(s)
  {
    Write(n, Decimal, width) + [end]
  }

  function ReadPart(s: string, width: nat, end: char): Option<(nat, string)> {
    if |s| <= width || s[width] != end then None else
      match Read(s[..width], Decimal)
      case None => None
      case Some(n) => Some((n, s[width + 1..]))
  }

  lemma PartRoundTrip(n: nat, width: nat, end: char, rest: string)
    requires IsPlainChar(end)
    requires n < Pow(Decimal, width)
    ensures ReadPart(Part(n, width, end) + rest, width, end) == Some((n, rest))
  {
    var s := Part(n, width, end) + rest;
    ReadWrite(n, Decimal, width);
    assert s[..width] == Write(n, Decimal, width);
    assert s[width + 1..] == rest;
  }

  /** Four digits for the years 0 to 9999, otherwise a sign and six. */
  function YearText(y: int): (s: string)
    requires -999999 <= y <= 999999
    ensures IsPlain(s) && |s| > 0
  {
    if 0 <= y <= 9999 then Part(y, 4, '-')
    else [if y < 0 then '-' else '+'] + Part(if y < 0 then -y else y, 6, '-')
  }

  function Signed(sign: char, n: int): int {
    if sign == '-' then -n else n
  }

  function ReadYear(s: string): Option<(int, string)> {
    if s == "" then None
    else if s[0] == '+' || s[0] == '-' then
      match ReadPart(s[1..], 6, '-')
      case None => None
      case Some((n, rest)) => if s[0] == '-' && n == 0 then None else Some((Signed(s[0], n), rest))
    else ReadPart(s, 4, '-')
  }

  lemma ShortYearRoundTrip(y: int, rest: string)
    requires 0 <= y <= 9999
    ensures ReadYear(Part(y, 4, '-') + rest) == Some((y, rest))
  {
    var digits := Write(y, Decimal, 4);
    DecimalPowers();
    PartRoundTrip(y, 4, '-', rest);
    assert digits[0] == DigitChar(y / 10 / 10 / 10 % 10) by {
      assert Write(y / 10, Decimal, 3)[0] == Write(y / 10 / 10, Decimal, 2)[0];
    }
    assert (Part(y, 4, '-') + rest)[0] == digits[0];
  }

  lemma LongYearRoundTrip(sign: char, n: nat, rest: string)
    requires sign == '+' || sign == '-'
    requires 0 < n <= 999999
    ensures ReadYear([sign] + Part(n, 6, '-') + rest) == Some((Signed(sign, n), rest))
  {
    DecimalPowers();
    PartRoundTrip(n, 6, '-', rest);
    assert ([sign] + Part(n, 6, '-') + rest)[1..] == Part(n, 6, '-') + rest;
  }

  lemma YearRoundTrip(y: int, rest: string)
    requires -999999 <= y <= 999999
    ensures ReadYear(YearText(y) + rest) == Some((y, rest))
  {
    if 0 <= y <= 9999 {
      ShortYearRoundTrip(y, rest);
    } else {
      LongYearRoundTrip(if y < 0 then '-' else '+', if y < 0 then -y else y, rest);
    }
  }

  function ClockText(f: Fields): (s: string)
    requires InCalendar(f)
    ensures IsPlain(s)
  {
    Part(f.hour, 2, ':') + (Part(f.minute, 2, ':') + (Part(f.second, 2, '.') + (Part(f.ms, 3, 'Z') + "")))
  }

  function ReadClock(s: string, y: int, m: nat, d: nat): Option<Fields> {
    match ReadPart(s, 2, ':')
    case None => None
    case Some((hour, s)) =>
      match ReadPart(s, 2, ':')
      case None => None
      case Some((minute, s)) =>
        match ReadPart(s, 2, '.')
        case None => None
        case Some((second, s)) =>
          match ReadPart(s, 3, 'Z')
          case None => None
          case Some((ms, s)) =>
            var f := Fields(y, m, d, hour, minute, second, ms);
            if s == "" && InCalendar(f) then Some(f) else None
  }

  /** toISOString, YYYY-MM-DDTHH:mm:ss.sssZ or with an expanded year. */
  function DateText(t: int): (s: string)
    requires -MAX_TIME <= t <= MAX_TIME
    ensures IsPlain(s)
  {
    var f := FieldsOf(t);
    YearText(f.year) + (Part(f.month, 2, '-') + (Part(f.day, 2, 'T') + ClockText(f)))
  }

  lemma ClockLayout(f: Fields)
    requires InCalendar(f)
    ensures ClockText(f) ==
            [D(f.hour / 10), D(f.hour % 10), ':', D(f.minute / 10), D(f.minute % 10), ':',
             D(f.second / 10), D(f.second % 10), '.',
             D(f.ms / 100), D(f.ms / 10 % 10), D(f.ms % 10), 'Z']
  {
    hide Write, D;
    TwoDigits(f.hour);
    TwoDigits(f.minute);
    TwoDigits(f.second);
    ThreeDigits(f.ms);
  }

  lemma YearLayout(y: int)
    requires -999999 <= y <= 999999
    ensures YearText(y) ==
            if 0 <= y <= 9999 then [D(y / 1000), D(y / 100 % 10), D(y / 10 % 10), D(y % 10), '-']
            else
              var n := if y < 0 then -y else y;
              [if y < 0 then '-' else '+', D(n / 100_000), D(n / 10_000 % 10), D(n / 1000 % 10),
               D(n / 100 % 10), D(n / 10 % 10), D(n % 10), '-']
  {
    hide Write, D;
    if 0 <= y <= 9999 {
      FourDigits(y);
    } else {
      SixDigits(if y < 0 then -y else y);
    }
  }

  lemma MonthAndDayLayout(month: int, day: int)
    requires 0 <= month < 100 && 0 <= day < 100
    ensures Part(month, 2, '-') == [D(month / 10), D(month % 10), '-']
    ensures Part(day, 2, 'T') == [D(day / 10), D(day % 10), 'T']
  {
    hide Write, D;
    TwoDigits(month);
    TwoDigits(day);
  }

  /** The text, character by character: YYYY-MM-DDTHH:mm:ss.sssZ of the fields, and a
      sign and six digits for a year that four cannot write. */
  lemma DateLayout(t: int)
    requires -MAX_TIME <= t <= MAX_TIME
    ensures
      var f := FieldsOf(t);
      && 1 <= f.month <= 12 && 1 <= f.day <= 31
      && var year :=
           if 0 <= f.year <= 9999 then
             [D(f.year / 1000), D(f.year / 100 % 10), D(f.year / 10 % 10), D(f.year % 10), '-']
           else
             var n := if f.year < 0 then -f.year else f.year;
             [if f.year < 0 then '-' else '+', D(n / 100_000), D(n / 10_000 % 10), D(n / 1000 % 10),
              D(n / 100 % 10), D(n / 10 % 10), D(n % 10), '-'];
         var month := [D(f.month / 10), D(f.month % 10), '-'];
         var day := [D(f.day / 10), D(f.day % 10), 'T'];
         var clock := [D(f.hour / 10), D(f.hour % 10), ':', D(f.minute / 10), D(f.minute % 10), ':',
                       D(f.second / 10), D(f.second % 10), '.',
                       D(f.ms / 100), D(f.ms / 10 % 10), D(f.ms % 10), 'Z'];
         DateText(t) == year + (month + (day + clock))
  {
    var f := FieldsOf(t);
    assert f.day <= 31;
    hide Write, D, FieldsOf, ClockText, YearText, Part;
    MonthAndDayLayout(f.month, f.day);
    ClockLayout(f);
    YearLayout(f.year);
  }

  /** `new Date(s).getTime()` on texts of that form, None where it is NaN. */
  function ReadDate(s: string): (t: Option<int>)
    ensures t.Some? ==> -MAX_TIME <= t.value <= MAX_TIME
  {
    match ReadYear(s)
    case None => None
    case Some((y, s)) =>
      match ReadPart(s, 2, '-')
      case None => None
      case Some((m, s)) =>
        match ReadPart(s, 2, 'T')
        case None => None
        case Some((d, s)) =>
          match ReadClock(s, y, m, d)
          case None => None
          case Some(f) =>
            if -MAX_TIME <= TimeOf(f) <= MAX_TIME then Some(TimeOf(f)) else None
  }

  lemma ClockRoundTrip(f: Fields)
    requires InCalendar(f)
    ensures ReadClock(ClockText(f), f.year, f.month, f.day) == Some(f)
  {
    DecimalPowers();
    var ms := Part(f.ms, 3, 'Z') + "";
    var second := Part(f.second, 2, '.') + ms;
    var minute := Part(f.minute, 2, ':') + second;
    PartRoundTrip(f.hour, 2, ':', minute);
    PartRoundTrip(f.minute, 2, ':', second);
    PartRoundTrip(f.second, 2, '.', ms);
    PartRoundTrip(f.ms, 3, 'Z', "");
  }

  lemma DateRoundTrip(t: int)
    requires -MAX_TIME <= t <= MAX_TIME
    ensures ReadDate(DateText(t)) == Some(t)
  {
    var f := FieldsOf(t);
    DecimalPowers();
    assert 1 <= f.day <= 31;
    var day := Part(f.day, 2, 'T') + ClockText(f);
    var month := Part(f.month, 2, '-') + day;
    hide FieldsOf, Read, Write, ReadYear, ReadPart, ReadClock, ClockText, YearText, TimeOf;
    YearRoundTrip(f.year, month);
    PartRoundTrip(f.month, 2, '-', day);
    PartRoundTrip(f.day, 2, 'T', ClockText(f));
    ClockRoundTrip(f);
    TimeRoundTrip(t);
  }
}
