/** The proleptic Gregorian calendar, day by day and in closed form. */
module Calendar {

  predicate Leap(year: int) {
    (year % 4 == 0 && year % 100 != 0) || year % 400 == 0
  }

  function YearLength(year: int): int {
    if Leap(year) then 366 else 365
  }

  /** Days from 1970-01-01 to the first of January of a year, counted year by year. */
  function YearStart(year: int): int
    decreases if year < 1970 then 1970 - year else year - 1970
  {
    if year == 1970 then 0
    else if year > 1970 then YearStart(year - 1) + YearLength(year - 1)
    else YearStart(year + 1) - YearLength(year)
  }

  /** The leap days of all years up to a year, by inclusion and exclusion. */
  function LeapDaysThrough(year: int): int {
    year / 4 - year / 100 + year / 400
  }

  lemma LeapDaysStep(year: int)
    ensures LeapDaysThrough(year) - LeapDaysThrough(year - 1) == if Leap(year) then 1 else 0
  {
    FloorStep(year, 4);
    FloorStep(year, 100);
    FloorStep(year, 400);
  }

  lemma FloorStep(n: int, k: int)
    requires k == 4 || k == 100 || k == 400
    ensures n / k - (n - 1) / k == if n % k == 0 then 1 else 0
    ensures k == 100 && n % 100 == 0 ==> n % 4 == 0
    ensures k == 400 && n % 400 == 0 ==> n % 100 == 0
  {
  }

  lemma {:induction false} YearStartClosed(year: int)
    ensures YearStart(year) == 365 * (year - 1970) + LeapDaysThrough(year - 1) - 477
    decreases if year < 1970 then 1970 - year else year - 1970
  {
    if year > 1970 {
      YearStartClosed(year - 1);
      LeapDaysStep(year - 1);
    } else if year < 1970 {
      YearStartClosed(year + 1);
      LeapDaysStep(year);
    }
  }

  /** For example: the day numbers of some first of January, and which years are leap years. */
  lemma KnownYears()
    ensures YearStart(1900) == -25567 && YearStart(1970) == 0 && YearStart(2000) == 10957 && YearStart(2001) == 11323 && YearStart(2100) == 47482
    ensures Leap(2000) && Leap(2024) && !Leap(1900) && !Leap(2023)
  {
    hide YearStart;
    YearStartClosed(1900);
    YearStartClosed(1970);
    YearStartClosed(2000);
    YearStartClosed(2001);
    YearStartClosed(2100);
  }

  lemma YearStartNext(year: int)
    ensures YearStart(year + 1) == YearStart(year) + YearLength(year)
  {
  }

  /** Every 400 years the calendar repeats, 146097 days later. */
  lemma YearStartCycle(year: int, cycles: int)
    ensures YearStart(year + 400 * cycles) == YearStart(year) + 146097 * cycles
    ensures Leap(year + 400 * cycles) == Leap(year)
  {
    YearStartClosed(year);
    YearStartClosed(year + 400 * cycles);
    FloorCycle(year - 1, cycles);
    FloorCycle(year, cycles);
  }

  lemma FloorCycle(n: int, c: int)
    ensures (n + 400 * c) / 4 == n / 4 + 100 * c && (n + 400 * c) / 100 == n / 100 + 4 * c && (n + 400 * c) / 400 == n / 400 + c
    ensures (n + 400 * c) % 4 == n % 4 && (n + 400 * c) % 100 == n % 100 && (n + 400 * c) % 400 == n % 400
  {
  }

  ghost predicate InYear(day: int, year: int) {
    YearStart(year) <= day < YearStart(year + 1)
  }

  lemma YearStartMonotone(a: int, b: int)
    requires a <= b
    ensures YearStart(a) + 365 * (b - a) <= YearStart(b)
    decreases b - a
  {
    if a < b {
      YearStartMonotone(a, b - 1);
      YearStartNext(b - 1);
    }
  }

  lemma InYearUnique(day: int, a: int, b: int)
    requires InYear(day, a) && InYear(day, b)
    ensures a == b
  {
    if a < b { YearStartMonotone(a + 1, b); }
    if b < a { YearStartMonotone(b + 1, a); }
  }

  // ---------- months, numbered from 0 ----------

  function DaysInMonth(leap: bool, month: int): int
    requires 0 <= month < 12
  {
    if leap then [31, 29, 31, 30, 31, 30, 31, 31, 30, 31, 30, 31][month]
    else [31, 28, 31, 30, 31, 30, 31, 31, 30, 31, 30, 31][month]
  }

  /** Days of the year before a month, month by month. */
  function MonthStart(leap: bool, month: int): int
    requires 0 <= month <= 12
  {
    if month == 0 then 0 else MonthStart(leap, month - 1) + DaysInMonth(leap, month - 1)
  }

  lemma MonthStartTable(leap: bool, month: int)
    requires 0 <= month <= 12
    ensures MonthStart(leap, month) ==
      if leap then [0, 31, 60, 91, 121, 152, 182, 213, 244, 274, 305, 335, 366][month]
      else [0, 31, 59, 90, 120, 151, 181, 212, 243, 273, 304, 334, 365][month]
  {
    if month > 0 { MonthStartTable(leap, month - 1); }
  }

  lemma MonthStartMonotone(leap: bool, a: int, b: int)
    requires 0 <= a <= b <= 12
    ensures MonthStart(leap, a) <= MonthStart(leap, b)
    decreases b - a
  {
    if a < b { MonthStartMonotone(leap, a, b - 1); }
  }

  /** Day number `offset` of a year (from 0) lies in exactly one month. */
  lemma MonthUnique(leap: bool, offset: int, a: int, b: int)
    requires 0 <= a < 12 && 0 <= b < 12
    requires MonthStart(leap, a) <= offset < MonthStart(leap, a + 1)
    requires MonthStart(leap, b) <= offset < MonthStart(leap, b + 1)
    ensures a == b
  {
    if a < b { MonthStartMonotone(leap, a + 1, b); }
    if b < a { MonthStartMonotone(leap, b + 1, a); }
  }
}
