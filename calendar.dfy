/**
 * The proleptic Gregorian calendar arithmetic that `Date.UTC` performs, written after
 * ECMAScript 2024 (ECMA-262), section 21.4.1: day numbers count days since 1970-01-01,
 * `DayFromYear` is the formula of section 21.4.1.3, the month table is that of
 * section 21.4.1.6 and `MakeDay` / `MakeDate` / `TimeClip` are sections 21.4.1.28,
 * 21.4.1.29 and 21.4.1.31. Years, months and days are unbounded integers here.
 */
module Calendar {

  /** The largest magnitude of a time value, in milliseconds (section 21.4.1.1). */
  const MaxTimeMs: int := 8640000000000000

  /** A calendar date: a month numbered 1 to 12 and a day of the month from 1. */
  datatype Civil = Civil(year: int, month: int, day: int)

  /** The leap rule: divisible by 4, except by 100, unless by 400. */
  predicate IsLeapYear(y: int) {
    y % 4 == 0 && (y % 100 != 0 || y % 400 == 0)
  }

  function DaysInYear(y: int): (n: int)
    ensures n == 365 || n == 366
    ensures n == 366 <==> IsLeapYear(y)
  {
    if IsLeapYear(y) then 366 else 365
  }

  /** Length of month `m` in a common year (`leap` false) or a leap year. */
  function MonthLength(m: int, leap: bool): (n: int)
    ensures 28 <= n <= 31
  {
    if m == 2 then (if leap then 29 else 28)
    else if m == 4 || m == 6 || m == 9 || m == 11 then 30
    else 31
  }

  /** Days of the year before the first of month `m` (the table of section 21.4.1.6). */
  function MonthStart(m: int, leap: bool): (n: int) {
    (if leap && m > 2 then 1 else 0) + (match m
      case 1 => 0   case 2 => 31  case 3 => 59  case 4 => 90
      case 5 => 120 case 6 => 151 case 7 => 181 case 8 => 212
      case 9 => 243 case 10 => 273 case 11 => 304 case _ => 334)
  }

  /** Each month starts where the one before it ends, and December ends the year. */
  lemma MonthStartStep(m: int, leap: bool)
    requires 1 <= m <= 12
    ensures m < 12 ==> MonthStart(m + 1, leap) == MonthStart(m, leap) + MonthLength(m, leap)
    ensures m == 12 ==> MonthStart(m, leap) + MonthLength(m, leap) == if leap then 366 else 365
  {
  }

  function DaysInMonth(y: int, m: int): int {
    MonthLength(m, IsLeapYear(y))
  }

  /** A real date: the month exists and the day exists in that month. */
  predicate ValidCivil(c: Civil) {
    1 <= c.month <= 12 && 1 <= c.day <= DaysInMonth(c.year, c.month)
  }

  /** Number of days of year `y` that come before the first day of month `m`. */
  function DaysBeforeMonth(y: int, m: int): int {
    MonthStart(m, IsLeapYear(y))
  }

  /** Day number of 1 January of year `y` (DayFromYear, section 21.4.1.3). */
  function DayFromYear(y: int): int {
    365 * (y - 1970) + (y - 1969) / 4 - (y - 1901) / 100 + (y - 1601) / 400
  }

  /** How each term of `DayFromYear` changes from year `y` to year `y + 1`. */
  lemma FourYearTerm(y: int)
    ensures (y + 1 - 1969) / 4 == (y - 1969) / 4 + (if y % 4 == 0 then 1 else 0)
  {
  }

  lemma CenturyTerm(y: int)
    ensures (y + 1 - 1901) / 100 == (y - 1901) / 100 + (if y % 100 == 0 then 1 else 0)
  {
  }

  lemma FourCenturyTerm(y: int)
    ensures (y + 1 - 1601) / 400 == (y - 1601) / 400 + (if y % 400 == 0 then 1 else 0)
  {
  }

  /** A year divisible by 400 is divisible by 100, and one divisible by 100 by 4. */
  lemma DivisorChain(y: int)
    ensures y % 400 == 0 ==> y % 100 == 0
    ensures y % 100 == 0 ==> y % 4 == 0
  {
    var q := y / 400;
    assert y == 400 * q + y % 400;
    var h := y / 100;
    assert y == 100 * h + y % 100;
  }

  /** Consecutive years are `DaysInYear` apart, so the formula encodes the leap rule. */
  lemma DayFromYearStep(y: int)
    ensures DayFromYear(y + 1) == DayFromYear(y) + DaysInYear(y)
  {
    FourYearTerm(y);
    CenturyTerm(y);
    FourCenturyTerm(y);
    DivisorChain(y);
  }

  /** The year in which day number `n` falls (YearFromTime, section 21.4.1.3). */
  function YearFromDay(n: int): (y: int)
    ensures DayFromYear(y) <= n < DayFromYear(y + 1)
  {
    var e := 1970 + (n * 400) / 146097;
    if n < DayFromYear(e) then e - 1
    else if n >= DayFromYear(e + 1) then e + 1
    else e
  }

  /** Later years start later. */
  lemma DayFromYearMonotone(a: int, b: int)
    requires a < b
    ensures DayFromYear(a + 1) <= DayFromYear(b)
  {
  }

  /** Exactly one year contains a given day number. */
  lemma YearFromDayUnique(n: int, y: int)
    requires DayFromYear(y) <= n < DayFromYear(y + 1)
    ensures YearFromDay(n) == y
  {
    var r := YearFromDay(n);
    if r < y {
      DayFromYearMonotone(r, y);
    } else if y < r {
      DayFromYearMonotone(y, r);
    }
  }

  /** The month that contains the `dy`-th day (counted from 0) of a year. */
  function MonthOf(dy: int, leap: bool): (m: int)
    requires 0 <= dy < if leap then 366 else 365
    ensures 1 <= m <= 12
    ensures MonthStart(m, leap) <= dy < MonthStart(m, leap) + MonthLength(m, leap)
  {
    if dy < MonthStart(2, leap) then 1
    else if dy < MonthStart(3, leap) then 2
    else if dy < MonthStart(4, leap) then 3
    else if dy < MonthStart(5, leap) then 4
    else if dy < MonthStart(6, leap) then 5
    else if dy < MonthStart(7, leap) then 6
    else if dy < MonthStart(8, leap) then 7
    else if dy < MonthStart(9, leap) then 8
    else if dy < MonthStart(10, leap) then 9
    else if dy < MonthStart(11, leap) then 10
    else if dy < MonthStart(12, leap) then 11
    else 12
  }

  /** Only one month contains a given day of the year. */
  lemma MonthOfUnique(dy: int, leap: bool, m: int)
    requires 1 <= m <= 12
    requires MonthStart(m, leap) <= dy < MonthStart(m, leap) + MonthLength(m, leap)
    ensures 0 <= dy < if leap then 366 else 365
    ensures MonthOf(dy, leap) == m
  {
    if leap {
      assert 0 <= dy < 366;
    } else {
      assert 0 <= dy < 365;
    }
  }

  /** Day number of a calendar date (the arithmetic of MakeDay for an in-range month). */
  function DayFromCivil(c: Civil): int {
    DayFromYear(c.year) + DaysBeforeMonth(c.year, c.month) + c.day - 1
  }

  /** The calendar date of day number `n` (YearFromTime, MonthFromTime, DateFromTime). */
  function CivilFromDay(n: int): (c: Civil)
    ensures ValidCivil(c)
    ensures DayFromCivil(c) == n
  {
    var y := YearFromDay(n);
    var dy := n - DayFromYear(y);
    DayFromYearStep(y);
    var m := MonthOf(dy, IsLeapYear(y));
    Civil(y, m, dy - DaysBeforeMonth(y, m) + 1)
  }

  /** Encoding a real date as a day number and decoding it gives the date back. */
  lemma CivilDayRoundTrip(c: Civil)
    requires ValidCivil(c)
    ensures CivilFromDay(DayFromCivil(c)) == c
  {
    var n := DayFromCivil(c);
    var dy := DaysBeforeMonth(c.year, c.month) + c.day - 1;
    MonthOfUnique(dy, IsLeapYear(c.year), c.month);
    DayFromYearStep(c.year);
    YearFromDayUnique(n, c.year);
  }

  /**
   * Any day number of a real date decodes to that date. A proof step: `CivilDayRoundTrip`
   * with the day number as a parameter, for callers that hold it under another name.
   */
  lemma DecodesTo(c: Civil, n: int)
    requires ValidCivil(c) && DayFromCivil(c) == n
    ensures CivilFromDay(n) == c
  {
    CivilDayRoundTrip(c);
  }

  /** Two real dates with the same day number are the same date. */
  lemma DayFromCivilInjective(a: Civil, b: Civil)
    requires ValidCivil(a) && ValidCivil(b)
    requires DayFromCivil(a) == DayFromCivil(b)
    ensures a == b
  {
    CivilDayRoundTrip(a);
    CivilDayRoundTrip(b);
  }

  /**
   * MakeDay(year, month, date) of section 21.4.1.28 on integers: the month index counts
   * from 0 and may overflow into later or earlier years, the date counts from 1 and may
   * overflow into later or earlier months.
   */
  function MakeDay(year: int, month: int, date: int): int {
    if 0 <= month < 12 then
      // the quotient is 0 and the remainder is `month`: no year carry
      DayFromYear(year) + DaysBeforeMonth(year, month + 1) + date - 1
    else
      var ym := year + month / 12;
      var mn := month % 12;
      DayFromYear(ym) + DaysBeforeMonth(ym, mn + 1) + date - 1
  }

  /**
   * MakeDate(day, 0) of section 21.4.1.29: the time value of midnight UTC of a day, at
   * msPerDay = 86400000 milliseconds a day (section 21.4.1.2).
   */
  function MakeDate(day: int): int {
    day * 86400000
  }

  /** TimeClip (section 21.4.1.31): a time value beyond 8.64e15 ms is NaN (`None`). */
  predicate InTimeRange(ms: int) {
    -MaxTimeMs <= ms <= MaxTimeMs
  }

  /** Whole-day shifts of a real date, by the calendar: adding `k` days to a date. */
  lemma MakeDayShift(c: Civil, k: int)
    requires ValidCivil(c)
    ensures MakeDay(c.year, c.month - 1, c.day + k) == DayFromCivil(c) + k
  {
  }

  /** The next calendar day, defined by the calendar's rules and not by day numbers. */
  function NextDay(c: Civil): (r: Civil)
    ensures ValidCivil(c) ==> ValidCivil(r)
  {
    if c.day < DaysInMonth(c.year, c.month) then Civil(c.year, c.month, c.day + 1)
    else if c.month < 12 then Civil(c.year, c.month + 1, 1)
    else Civil(c.year + 1, 1, 1)
  }

  /** The previous calendar day: day 0 of a month is the last day of the month before. */
  function PrevDay(c: Civil): (r: Civil)
    ensures ValidCivil(c) ==> ValidCivil(r)
  {
    if c.day > 1 then Civil(c.year, c.month, c.day - 1)
    else if c.month > 1 then Civil(c.year, c.month - 1, DaysInMonth(c.year, c.month - 1))
    else Civil(c.year - 1, 12, 31)
  }

  /** The next calendar day has the next day number (month and year ends included). */
  lemma NextDayNumber(c: Civil)
    requires ValidCivil(c)
    ensures DayFromCivil(NextDay(c)) == DayFromCivil(c) + 1
  {
    MonthStartStep(c.month, IsLeapYear(c.year));
    if c.day == DaysInMonth(c.year, c.month) && c.month == 12 {
      DayFromYearStep(c.year);
    }
  }

  /** The previous calendar day has the previous day number. */
  lemma PrevDayNumber(c: Civil)
    requires ValidCivil(c)
    ensures DayFromCivil(PrevDay(c)) == DayFromCivil(c) - 1
  {
    if c.day == 1 && c.month == 1 {
      DayFromYearStep(c.year - 1);
      MonthStartStep(12, IsLeapYear(c.year - 1));
    } else if c.day == 1 {
      MonthStartStep(c.month - 1, IsLeapYear(c.year));
    }
  }

  /** One day later by day number is the next calendar day. */
  lemma NextDayIsSuccessor(c: Civil)
    requires ValidCivil(c)
    ensures CivilFromDay(DayFromCivil(c) + 1) == NextDay(c)
  {
    NextDayNumber(c);
    CivilDayRoundTrip(NextDay(c));
  }

  /** One day earlier by day number is the previous calendar day. */
  lemma PrevDayIsPredecessor(c: Civil)
    requires ValidCivil(c)
    ensures CivilFromDay(DayFromCivil(c) - 1) == PrevDay(c)
  {
    PrevDayNumber(c);
    CivilDayRoundTrip(PrevDay(c));
  }

  /** `k` steps of `NextDay` (k >= 0) or `-k` steps of `PrevDay` (k < 0). */
  function AddDays(c: Civil, k: int): (r: Civil)
    ensures ValidCivil(c) ==> ValidCivil(r)
    decreases if k < 0 then -k else k
  {
    if k == 0 then c
    else if k > 0 then AddDays(NextDay(c), k - 1)
    else AddDays(PrevDay(c), k + 1)
  }

  /** Walking `k` calendar days moves the day number by exactly `k`. */
  lemma {:induction false} AddDaysNumber(c: Civil, k: int)
    requires ValidCivil(c)
    ensures DayFromCivil(AddDays(c, k)) == DayFromCivil(c) + k
    decreases if k < 0 then -k else k
  {
    if k > 0 {
      NextDayNumber(c);
      AddDaysNumber(NextDay(c), k - 1);
    } else if k < 0 {
      PrevDayNumber(c);
      AddDaysNumber(PrevDay(c), k + 1);
    }
  }

  /**
   * Shifting the day number by `k` is the same as walking `k` calendar days (stated
   * with the shifted day number `n` as a parameter).
   */
  lemma ShiftIsAddDays(c: Civil, k: int, n: int)
    requires ValidCivil(c) && n == DayFromCivil(c) + k
    ensures CivilFromDay(n) == AddDays(c, k)
  {
    AddDaysNumber(c, k);
    DecodesTo(AddDays(c, k), n);
  }

  /** `MakeDay(year, month - 1, day + k)` is the date `k` calendar days after a real date. */
  lemma MakeDayIsAddDays(c: Civil, k: int)
    requires ValidCivil(c)
    ensures CivilFromDay(MakeDay(c.year, c.month - 1, c.day + k)) == AddDays(c, k)
  {
    AddDaysNumber(c, k);
    MakeDayShift(c, k);
    DecodesTo(AddDays(c, k), MakeDay(c.year, c.month - 1, c.day + k));
  }
}
