/** Proleptic Gregorian calendar days: the date arithmetic that the leave and
    overtime calculations take from JavaScript's Date and the date-fns library
    (getFullYear, getMonth, getDay, addDays, isWeekend, isSameDay and the
    comparison of two dates by their timestamps). Time of day and time zones
    are not modelled: a date is a calendar day. */
module Calendar {

  /** A (year, month, day) triple; only the triples that name a real day are dates. */
  datatype Ymd = Ymd(year: int, month: int, day: int)

  predicate IsLeapYear(y: int) {
    y % 4 == 0 && (y % 100 != 0 || y % 400 == 0)
  }

  function DaysInMonth(y: int, m: int): (n: int)
    requires 1 <= m <= 12
    ensures 28 <= n <= 31
    ensures n == 29 <==> m == 2 && IsLeapYear(y)
  {
    if m == 2 then (if IsLeapYear(y) then 29 else 28)
    else if m == 4 || m == 6 || m == 9 || m == 11 then 30
    else 31
  }

  predicate ValidYmd(d: Ymd) {
    1 <= d.month <= 12 && 1 <= d.day <= DaysInMonth(d.year, d.month)
  }

  /** A calendar day. */
  type Date = d: Ymd | ValidYmd(d) witness Ymd(1970, 1, 1)

  function DaysInYear(y: int): int {
    if IsLeapYear(y) then 366 else 365
  }

  /** Days of year y that come before the first day of month m. */
  function DaysBeforeMonth(y: int, m: int): (n: int)
    requires 1 <= m <= 12
    ensures 0 <= n <= 335
  {
    var common :=
      if m == 1 then 0 else if m == 2 then 31 else if m == 3 then 59
      else if m == 4 then 90 else if m == 5 then 120 else if m == 6 then 151
      else if m == 7 then 181 else if m == 8 then 212 else if m == 9 then 243
      else if m == 10 then 273 else if m == 11 then 304 else 334;
    common + (if m > 2 && IsLeapYear(y) then 1 else 0)
  }

  /** Days from 0001-01-01 to the first day of year y (negative before year 1). */
  function DaysBeforeYear(y: int): int
    decreases if y >= 1 then y - 1 else 1 - y
  {
    if y == 1 then 0
    else if y > 1 then DaysBeforeYear(y - 1) + DaysInYear(y - 1)
    else DaysBeforeYear(y + 1) - DaysInYear(y)
  }

  /** The number of the day counted from 0001-01-01 (day 0): the calendar's
      timestamp, up to the 86 400 000 milliseconds of a day. */
  function DayNumber(d: Date): int {
    DaysBeforeYear(d.year) + DaysBeforeMonth(d.year, d.month) + d.day - 1
  }

  /** `a <= b` on JavaScript dates: the earlier timestamp. */
  predicate Le(a: Date, b: Date) {
    DayNumber(a) <= DayNumber(b)
  }

  predicate Lt(a: Date, b: Date) {
    DayNumber(a) < DayNumber(b)
  }

  /** The calendar order written out on the triples: year, then month, then day. */
  predicate LexLe(a: Ymd, b: Ymd) {
    a.year < b.year
    || (a.year == b.year && (a.month < b.month || (a.month == b.month && a.day <= b.day)))
  }

  /** Date.getDay(): 0 is Sunday, 6 is Saturday (0001-01-01 was a Monday). */
  function Weekday(d: Date): (w: int)
    ensures 0 <= w < 7
  {
    (DayNumber(d) + 1) % 7
  }

  /** date-fns isWeekend: Saturday or Sunday. */
  predicate IsWeekend(d: Date) {
    Weekday(d) == 6 || Weekday(d) == 0
  }

  /** The number of days between January 1 of y and January 1 of y + 1. */
  lemma YearLength(y: int)
    ensures DaysBeforeYear(y + 1) == DaysBeforeYear(y) + DaysInYear(y)
  {
  }

  /** The closed form of the Gregorian day count: 365 days a year, plus one for
      every fourth year, less one for every hundredth, plus one for every
      four-hundredth (`/` is floor division, the divisors being positive). */
  function GregorianDaysBeforeYear(y: int): int {
    365 * (y - 1) + (y - 1) / 4 - (y - 1) / 100 + (y - 1) / 400
  }

  lemma QuarterStep(y: int)
    ensures y / 4 == (y - 1) / 4 + (if y % 4 == 0 then 1 else 0)
  {
  }

  lemma CenturyStep(y: int)
    ensures y / 100 == (y - 1) / 100 + (if y % 100 == 0 then 1 else 0)
  {
  }

  lemma FourCenturyStep(y: int)
    ensures y / 400 == (y - 1) / 400 + (if y % 400 == 0 then 1 else 0)
  {
  }

  /** The closed form grows by the length of each year too. */
  lemma GregorianYearLength(y: int)
    ensures GregorianDaysBeforeYear(y + 1) == GregorianDaysBeforeYear(y) + DaysInYear(y)
  {
    QuarterStep(y);
    CenturyStep(y);
    FourCenturyStep(y);
  }

  /** The year-by-year count agrees with the closed form for every year. */
  lemma {:induction false} DaysBeforeYearFormula(y: int)
    ensures DaysBeforeYear(y) == GregorianDaysBeforeYear(y)
    decreases if y >= 1 then y - 1 else 1 - y
  {
    if y > 1 {
      DaysBeforeYearFormula(y - 1);
      GregorianYearLength(y - 1);
    } else if y < 1 {
      DaysBeforeYearFormula(y + 1);
      GregorianYearLength(y);
    }
  }

  /** date-fns addDays(d, 1): the following calendar day, one day number later. */
  function Next(d: Date): (r: Date)
    ensures DayNumber(r) == DayNumber(d) + 1
  {
    if d.day < DaysInMonth(d.year, d.month) then
      Ymd(d.year, d.month, d.day + 1)
    else if d.month < 12 then
      Ymd(d.year, d.month + 1, 1)
    else
      YearLength(d.year);
      Ymd(d.year + 1, 1, 1)
  }

  lemma ModSevenStep(n: int)
    ensures (n + 1) % 7 == (n % 7 + 1) % 7
  {
  }

  /** The weekday advances by one, Saturday wrapping to Sunday. */
  lemma WeekdayNext(d: Date)
    ensures Weekday(Next(d)) == (Weekday(d) + 1) % 7
  {
    ModSevenStep(DayNumber(d) + 1);
  }

  /** Each day of year y has a day number in [DaysBeforeYear(y), DaysBeforeYear(y + 1)). */
  lemma DayNumberWithinYear(d: Date)
    ensures DaysBeforeYear(d.year) <= DayNumber(d) < DaysBeforeYear(d.year + 1)
  {
    YearLength(d.year);
  }

  lemma {:induction false} DaysBeforeYearMonotone(a: int, b: int)
    requires a < b
    ensures DaysBeforeYear(a) < DaysBeforeYear(b)
    decreases b - a
  {
    YearLength(a);
    if a + 1 < b {
      DaysBeforeYearMonotone(a + 1, b);
    }
  }

  /** The first day of the following month (January of the next year after
      December) comes DaysInMonth(y, m) days after the first day of month m. */
  lemma MonthLength(y: int, m: int)
    requires 1 <= m <= 12
    ensures var (ny, nm) := if m == 12 then (y + 1, 1) else (y, m + 1);
            DayNumber(Ymd(ny, nm, 1)) == DayNumber(Ymd(y, m, 1)) + DaysInMonth(y, m)
  {
    if m == 12 {
      YearLength(y);
    }
  }

  /** Days of an earlier month of the same year all come before those of a later month. */
  lemma MonthsInOrder(y: int, m1: int, m2: int)
    requires 1 <= m1 < m2 <= 12
    ensures DaysBeforeMonth(y, m1) + DaysInMonth(y, m1) <= DaysBeforeMonth(y, m2)
  {
  }

  /** The day numbers follow the calendar order: comparing timestamps is
      comparing (year, month, day) lexicographically. */
  lemma DayNumberOrder(a: Date, b: Date)
    ensures Le(a, b) <==> LexLe(a, b)
  {
    DayNumberWithinYear(a);
    DayNumberWithinYear(b);
    if a.year < b.year {
      DaysBeforeYearMonotone(a.year + 1, b.year + 1);
      if a.year + 1 < b.year {
        DaysBeforeYearMonotone(a.year + 1, b.year);
      }
    } else if b.year < a.year {
      DaysBeforeYearMonotone(b.year + 1, a.year + 1);
      if b.year + 1 < a.year {
        DaysBeforeYearMonotone(b.year + 1, a.year);
      }
    } else if a.month < b.month {
      MonthsInOrder(a.year, a.month, b.month);
    } else if b.month < a.month {
      MonthsInOrder(a.year, b.month, a.month);
    }
  }

  /** Two dates with the same timestamp are the same calendar day. */
  lemma DayNumberInjective(a: Date, b: Date)
    ensures DayNumber(a) == DayNumber(b) <==> a == b
  {
    DayNumberOrder(a, b);
    DayNumberOrder(b, a);
  }

  /** The first day of year y. */
  function FirstOfYear(y: int): (d: Date)
    ensures DayNumber(d) == DaysBeforeYear(y)
  {
    Ymd(y, 1, 1)
  }

  /** The last day of year y. */
  function LastOfYear(y: int): (d: Date)
    ensures DayNumber(d) + 1 == DaysBeforeYear(y + 1)
  {
    YearLength(y);
    Ymd(y, 12, 31)
  }

  /** A date lies between January 1 and December 31 of y exactly when its year is y:
      the range query `gte y-01-01, lte y-12-31` selects one calendar year. */
  lemma WithinYear(d: Date, y: int)
    ensures Le(FirstOfYear(y), d) && Le(d, LastOfYear(y)) <==> d.year == y
  {
    DayNumberOrder(FirstOfYear(y), d);
    DayNumberOrder(d, LastOfYear(y));
  }

  /** Every day between a and b lies in a year from a's to b's. */
  lemma YearsBetween(a: Date, d: Date, b: Date)
    requires Le(a, d) && Le(d, b)
    ensures a.year <= d.year <= b.year
  {
    DayNumberOrder(a, d);
    DayNumberOrder(d, b);
  }

  /** 1 January 2025 was a Wednesday. */
  lemma NewYear2025()
    ensures DayNumber(Ymd(2025, 1, 1)) == 739251
    ensures Weekday(Ymd(2025, 1, 1)) == 3
  {
    DaysBeforeYearFormula(2025);
  }
}
