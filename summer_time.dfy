/**
 * The European summer-time rule of ntp.cpp (getLastSunday,
 * isEuropeanSummerTime, getTimeZone), at day granularity.
 *
 * The firmware is C++, whose integer `/` and `%` truncate toward zero;
 * CDiv and CMod model those operators, so the functions below agree with
 * the firmware for every year whose weekday expression fits in a 32-bit
 * `int`, negative years included; every year the device clock reports
 * is one of them.
 */
module SummerTime {
  import opened Calendar

  /** UTC offsets in hours, as the firmware's byte constants. */
  const CET := 1
  const CEST := 2

  /** C++ integer division by a positive divisor: the quotient is truncated toward zero. */
  function CDiv(a: int, b: int): (q: int)
    requires b > 0
    ensures a >= 0 ==> b * q <= a < b * q + b
    ensures a < 0 ==> b * q - b < a <= b * q
  {
    if a >= 0 then a / b else -((-a) / b)
  }

  /** C++ remainder by a positive divisor: it has the sign of the dividend. */
  function CMod(a: int, b: int): (r: int)
    requires b > 0
    ensures a >= 0 ==> r == a % b
    ensures a < 0 ==> r == -((-a) % b)
  {
    a - b * CDiv(a, b)
  }

  /**
   * What C++ guarantees of its operators: a == b * (a / b) + a % b, with the
   * remainder smaller than b in magnitude and of the same sign as a.
   */
  lemma TruncatedDivision(a: int, b: int)
    requires b > 0
    ensures a == b * CDiv(a, b) + CMod(a, b)
    ensures -b < CMod(a, b) < b
    ensures a >= 0 ==> CMod(a, b) >= 0
    ensures a <= 0 ==> CMod(a, b) <= 0
  {
  }

  /**
   * The weekday expression of getLastSunday: January and February are
   * counted as months 13 and 14 of the year before, then the congruence is
   * taken modulo 7 with C++ operators.
   */
  function DayOfWeek(year: int, month: int): (w: int)
    ensures -7 < w < 7
  {
    var m := if month < 3 then month + 12 else month;
    var y := if month < 3 then year - 1 else year;
    CMod(1 + 2 * m + CDiv(3 * (m + 1), 5) + y + CDiv(y, 4) - CDiv(y, 100) + CDiv(y, 400), 7)
  }

  /**
   * getLastSunday as written: 31 minus ((dayOfWeek + 6) mod 7). Since
   * dayOfWeek + 6 is never negative, the day is always between 25 and 31,
   * whatever the year and month.
   */
  function LastSunday(year: int, month: int): (day: int)
    ensures 25 <= day <= 31
  {
    31 - CMod(DayOfWeek(year, month) + 6, 7)
  }

  /** isEuropeanSummerTime: the month cases with the two computed transition days. */
  predicate IsEuropeanSummerTime(year: int, month: int, day: int)
    ensures IsEuropeanSummerTime(year, month, day) ==> 3 <= month <= 10
    ensures 3 < month < 10 ==> IsEuropeanSummerTime(year, month, day)
  {
    if month < 3 || month > 10 then false
    else
      var lastSundayInMarch := LastSunday(year, 3);
      var lastSundayInOctober := LastSunday(year, 10);
      (month == 3 && day >= lastSundayInMarch)
      || (month == 10 && day < lastSundayInOctober)
      || (month > 3 && month < 10)
  }

  /** getTimeZone: the UTC offset in hours for the given date. */
  function TimeZone(year: int, month: int, day: int): (tz: int)
    ensures tz == CET || tz == CEST
    ensures tz == CEST <==> IsEuropeanSummerTime(year, month, day)
  {
    if IsEuropeanSummerTime(year, month, day) then CEST else CET
  }

  // ---------------------------------------------------------------------
  // The month cases of the rule

  lemma SummerTimeByMonth(year: int, month: int, day: int)
    ensures month < 3 || month > 10 ==> !IsEuropeanSummerTime(year, month, day)
    ensures 3 < month < 10 ==> IsEuropeanSummerTime(year, month, day)
    ensures month == 3 ==> (IsEuropeanSummerTime(year, month, day) <==> day >= LastSunday(year, 3))
    ensures month == 10 ==> (IsEuropeanSummerTime(year, month, day) <==> day < LastSunday(year, 10))
  {
  }

  /** Because the transition days lie in [25, 31], some days never depend on the year. */
  lemma FixedDaysOfMarchAndOctober(year: int, day: int)
    ensures 1 <= day <= 24 ==> !IsEuropeanSummerTime(year, 3, day)
    ensures IsEuropeanSummerTime(year, 3, 31)
    ensures 1 <= day <= 24 ==> IsEuropeanSummerTime(year, 10, day)
    ensures !IsEuropeanSummerTime(year, 10, 31)
  {
  }

  /** Summer time is a single run of days: once over in a year, it does not start again. */
  lemma SummerTimeIsOneInterval(year: int, m1: int, d1: int, m2: int, d2: int, m3: int, d3: int)
    requires 1 <= d1 <= 31 && 1 <= d2 <= 31 && 1 <= d3 <= 31
    requires m1 * 32 + d1 <= m2 * 32 + d2 <= m3 * 32 + d3
    requires IsEuropeanSummerTime(year, m1, d1) && IsEuropeanSummerTime(year, m3, d3)
    ensures IsEuropeanSummerTime(year, m2, d2)
  {
  }

  // ---------------------------------------------------------------------
  // What the weekday expression computes, against the reference calendar

  /**
   * For years from 1 on, the expression of getLastSunday is the weekday
   * (0 = Sunday) of day 0 of the month, that is, of the last day of the
   * month before, and not the weekday of day 31 that line 43 counts back
   * from.
   */
  lemma {:induction false} DayOfWeekIsWeekdayOfDayZero(year: int, month: int)
    requires year >= 1 && 1 <= month <= 12
    ensures DayOfWeek(year, month) == Weekday(year, month, 0)
  {
    var m := if month < 3 then month + 12 else month;
    var y := if month < 3 then year - 1 else year;
    var s := 1 + 2 * m + 3 * (m + 1) / 5 + y + LeapYearsUpTo(y);
    DayOfWeekOfNonNegativeYear(year, month);
    var k := DayZeroCongruence(year, month);
    var n := DayNumber(year, month, 0);
    assert n == s + 7 * k;
    ModuloSevenShift(s, k);
  }

  lemma ModuloSevenShift(s: int, k: int)
    ensures (s + 7 * k) % 7 == s % 7
  {
  }

  /** For years the adjustment leaves non-negative, the C++ operators are Dafny's. */
  lemma DayOfWeekOfNonNegativeYear(year: int, month: int)
    requires year >= 1 && 1 <= month <= 12
    ensures var m := if month < 3 then month + 12 else month;
      var y := if month < 3 then year - 1 else year;
      DayOfWeek(year, month) == (1 + 2 * m + 3 * (m + 1) / 5 + y + LeapYearsUpTo(y)) % 7
  {
  }

  /** Day 0 of the month and the sum inside the weekday expression differ by a multiple of 7. */
  lemma DayZeroCongruence(year: int, month: int) returns (k: int)
    requires year >= 1 && 1 <= month <= 12
    ensures var m := if month < 3 then month + 12 else month;
      var y := if month < 3 then year - 1 else year;
      DayNumber(year, month, 0) == 1 + 2 * m + 3 * (m + 1) / 5 + y + LeapYearsUpTo(y) + 7 * k
  {
    DaysBeforeYearClosedForm(year);
    DaysBeforeMonthClosedForm(year, month);
    if month < 3 {
      k := 52 * (year - 1) - (if month == 1 then 5 else 1);
    } else {
      LeapYearsStep(year);
      k := 52 * year - 57 + 4 * month;
    }
  }

  /**
   * What getLastSunday returns, for years from 1 on: the last Thursday among
   * days 25 to 31 of the month (day 31 of a 30-day month counting as 1 of
   * the next). For March and October, which have 31 days, this is the last
   * Thursday of the month, not the last Sunday.
   */
  lemma LastSundayIsLastThursday(year: int, month: int)
    requires year >= 1 && 1 <= month <= 12
    ensures Weekday(year, month, LastSunday(year, month)) == Thursday
    ensures LastSunday(year, month) + 7 > 31
  {
    DayOfWeekIsWeekdayOfDayZero(year, month);
    var n := DayNumber(year, month, 0);
    var w := n % 7;
    assert DayNumber(year, month, LastSunday(year, month)) == n + 31 - (w + 6) % 7;
    ThursdayAfterDayZero(n / 7, w);
  }

  /** Counting back (w + 6) % 7 days from day 31 lands on a Thursday whatever weekday w day 0 has. */
  lemma ThursdayAfterDayZero(q: int, w: int)
    requires 0 <= w < 7
    ensures (7 * q + w + 31 - (w + 6) % 7) % 7 == Thursday
  {
    ModuloSevenShift(w + 31 - (w + 6) % 7, q);
  }

  /** The year 2024 in the code: March 28 and October 31 are taken as the transition days. */
  lemma TransitionDays2024()
    ensures LastSunday(2024, 3) == 28 && LastSunday(2024, 10) == 31
  {
    assert DayOfWeek(2024, 3) == 4;
    assert DayOfWeek(2024, 10) == 1;
  }

  /** So in 2024 the code keeps summer time from March 28 to October 30. */
  lemma SummerTime2024()
    ensures IsEuropeanSummerTime(2024, 3, 28) && IsEuropeanSummerTime(2024, 3, 30)
    ensures IsEuropeanSummerTime(2024, 10, 27) && IsEuropeanSummerTime(2024, 10, 28)
    ensures IsEuropeanSummerTime(2024, 10, 30) && !IsEuropeanSummerTime(2024, 10, 31)
  {
    TransitionDays2024();
  }

  /**
   * The real last Sundays of March and October 2024, in the reference
   * calendar, are the 31st and the 27th; the days the code takes are
   * Thursdays.
   */
  lemma LastSundays2024()
    ensures Weekday(2024, 3, 31) == Sunday && Weekday(2024, 10, 27) == Sunday
    ensures Weekday(2024, 3, 28) == Thursday && Weekday(2024, 10, 31) == Thursday
  {
    DaysBeforeYearClosedForm(2024);
    assert LeapYearsUpTo(2023) == 490;
    assert DaysBeforeYear(2024) == 738885;
    DaysBeforeMonthClosedForm(2024, 3);
    DaysBeforeMonthClosedForm(2024, 10);
    assert IsLeapYear(2024);
    assert DayNumber(2024, 3, 0) == 738885 + 60;
    assert DayNumber(2024, 10, 0) == 738885 + 274;
  }

  /**
   * Below year 1 the truncating divisions of line 37 no longer count leap
   * years, so the weekday of day 0 is lost. The calendar repeats every 400
   * years, a whole number of weeks, so March of year -1 has the weekdays of
   * March 399, whose day 0 is a Sunday; the code gives Monday for year -1,
   * and a Wednesday, the 31st, as its transition day.
   */
  lemma NegativeYearOffCalendar()
    ensures DayOfWeek(-1, 3) == 1 && LastSunday(-1, 3) == 31
    ensures DayNumber(799, 3, 0) - DayNumber(399, 3, 0) == 20871 * 7
    ensures Weekday(399, 3, 0) == Sunday && Weekday(399, 3, 31) == 3
  {
    DayOfWeekIsWeekdayOfDayZero(399, 3);
    assert DayOfWeek(399, 3) == 0;
    DaysBeforeYearClosedForm(399);
    DaysBeforeYearClosedForm(799);
    assert LeapYearsUpTo(398) == 96;
    assert LeapYearsUpTo(798) == 193;
    DaysBeforeMonthClosedForm(399, 3);
    DaysBeforeMonthClosedForm(799, 3);
  }

}
