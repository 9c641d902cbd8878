/**
 * A reference proleptic Gregorian calendar, defined by counting days.
 * It is independent of the closed-form weekday formula that the firmware
 * uses, so that the formula can be checked against it.
 *
 * Day 1 is 1 January of year 1, which fell on a Monday; with weekdays
 * numbered 0 = Sunday, ..., 6 = Saturday the weekday of a date is its day
 * number modulo 7.
 */
module Calendar {

  const Sunday := 0
  const Thursday := 4

  predicate IsLeapYear(y: int) {
    y % 4 == 0 && (y % 100 != 0 || y % 400 == 0)
  }

  function DaysInYear(y: int): nat {
    if IsLeapYear(y) then 366 else 365
  }

  function DaysInMonth(y: int, m: int): nat
    requires 1 <= m <= 12
  {
    if m == 2 then (if IsLeapYear(y) then 29 else 28)
    else if m == 4 || m == 6 || m == 9 || m == 11 then 30
    else 31
  }

  /** Days in the years 1 .. y - 1. */
  function DaysBeforeYear(y: int): nat
    requires y >= 1
    decreases y
  {
    if y == 1 then 0 else DaysBeforeYear(y - 1) + DaysInYear(y - 1)
  }

  /** Days in the months 1 .. m - 1 of year y. */
  function DaysBeforeMonth(y: int, m: int): nat
    requires 1 <= m <= 12
    decreases m
  {
    if m == 1 then 0 else DaysBeforeMonth(y, m - 1) + DaysInMonth(y, m - 1)
  }

  /**
   * The number of day d of month m of year y, counting 1 January of year 1
   * as day 1. Day 0 of a month is the last day of the month before it.
   */
  function DayNumber(y: int, m: int, d: int): int
    requires y >= 1 && 1 <= m <= 12
  {
    DaysBeforeYear(y) + DaysBeforeMonth(y, m) + d
  }

  /** The weekday of a date: 0 = Sunday, 1 = Monday, ..., 6 = Saturday. */
  function Weekday(y: int, m: int, d: int): (w: int)
    requires y >= 1 && 1 <= m <= 12
    ensures 0 <= w < 7
  {
    DayNumber(y, m, d) % 7
  }

  /** Leap years among 1 .. n. */
  function LeapYearsUpTo(n: int): int {
    n / 4 - n / 100 + n / 400
  }

  /** Going from k - 1 to k adds one multiple of b exactly when b divides k. */
  lemma DivStep(k: int, b: int)
    requires k >= 1 && (b == 4 || b == 100 || b == 400)
    ensures k / b - (k - 1) / b == if k % b == 0 then 1 else 0
  {
  }

  lemma LeapYearsStep(k: int)
    requires k >= 1
    ensures LeapYearsUpTo(k) == LeapYearsUpTo(k - 1) + (if IsLeapYear(k) then 1 else 0)
  {
    DivStep(k, 4);
    DivStep(k, 100);
    DivStep(k, 400);
  }

  /** The day count of the whole years before y in closed form. */
  lemma {:induction false} DaysBeforeYearClosedForm(y: int)
    requires y >= 1
    ensures DaysBeforeYear(y) == 365 * (y - 1) + LeapYearsUpTo(y - 1)
  {
    if y > 1 {
      DaysBeforeYearClosedForm(y - 1);
      LeapYearsStep(y - 1);
    }
  }

  /** The day count of the months before m in closed form. */
  lemma DaysBeforeMonthClosedForm(y: int, m: int)
    requires 1 <= m <= 12
    ensures m == 1 ==> DaysBeforeMonth(y, m) == 0
    ensures m == 2 ==> DaysBeforeMonth(y, m) == 31
    ensures m >= 3 ==>
      DaysBeforeMonth(y, m) == 30 * (m - 1) + 3 * (m + 1) / 5 - 3 + (if IsLeapYear(y) then 1 else 0)
  {
    DaysBeforeMonthTable(y, m);
  }

  /** The day count of the months before m, month by month. */
  lemma DaysBeforeMonthTable(y: int, m: int)
    requires 1 <= m <= 12
    ensures DaysBeforeMonth(y, m) ==
      [0, 31, 59, 90, 120, 151, 181, 212, 243, 273, 304, 334][m - 1]
      + (if m >= 3 && IsLeapYear(y) then 1 else 0)
  {
  }
}
