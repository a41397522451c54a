/** Calendar dates and times of day in the proleptic Gregorian calendar, as
    java.time.LocalDate / LocalTime / LocalDateTime use them on the server and
    as the browser's Date is used for a plain calendar day on the client.
    Time zones and daylight saving are not part of this model: a time of day
    is a count of seconds since midnight. */
module Calendar {

  const SecondsPerHour: int := 3600
  const SecondsPerDay: int := 86400

  /** A time of day, in whole seconds since midnight (LocalTime, "HH:MM:SS"). */
  type Time = t: int | 0 <= t < SecondsPerDay

  datatype Date = Date(year: int, month: int, day: int)

  datatype DateTime = DateTime(date: Date, time: Time)

  predicate IsLeapYear(y: int) {
    y % 4 == 0 && (y % 100 != 0 || y % 400 == 0)
  }

  function DaysInMonth(y: int, m: int): (n: int)
    requires 1 <= m <= 12
    ensures 28 <= n <= 31
    ensures m == 2 <==> n < 30
    ensures n == 29 <==> m == 2 && IsLeapYear(y)
  {
    if m == 2 then (if IsLeapYear(y) then 29 else 28)
    else if m == 4 || m == 6 || m == 9 || m == 11 then 30
    else 31
  }

  function DaysInYear(y: int): int {
    if IsLeapYear(y) then 366 else 365
  }

  predicate ValidDate(d: Date) {
    1 <= d.month <= 12 && 1 <= d.day <= DaysInMonth(d.year, d.month)
  }

  /** Calendar order: `a` is a strictly earlier day than `b`. */
  predicate DateBefore(a: Date, b: Date) {
    a.year < b.year
    || (a.year == b.year && a.month < b.month)
    || (a.year == b.year && a.month == b.month && a.day < b.day)
  }

  /** LocalDateTime.isBefore: by date, then by time of day. */
  predicate DateTimeBefore(a: DateTime, b: DateTime) {
    DateBefore(a.date, b.date) || (a.date == b.date && a.time < b.time)
  }

  /** The following calendar day, with month and year carry. */
  function NextDay(d: Date): (n: Date)
    requires ValidDate(d)
    ensures ValidDate(n)
    ensures DateBefore(d, n)
    ensures d.month == 12 && d.day == 31 ==> n == Date(d.year + 1, 1, 1)
  {
    if d.day < DaysInMonth(d.year, d.month) then Date(d.year, d.month, d.day + 1)
    else if d.month < 12 then Date(d.year, d.month + 1, 1)
    else Date(d.year + 1, 1, 1)
  }

  /** No valid day lies strictly between a day and its NextDay. */
  lemma NextDayIsImmediateSuccessor(d: Date, e: Date)
    requires ValidDate(d) && ValidDate(e)
    requires DateBefore(d, e)
    ensures e == NextDay(d) || DateBefore(NextDay(d), e)
  {
  }

  // ---------------------------------------------------------------------
  // Day numbers: a count of days that increases by one from each day to the
  // next, used to measure the distance between two date-times.

  /** Days in the years before `y`, counted from 1 January of year 1. */
  function DaysBeforeYear(y: int): int {
    365 * (y - 1) + (y - 1) / 4 - (y - 1) / 100 + (y - 1) / 400
  }

  /** Days in the months of year `y` before month `m`. */
  function DaysBeforeMonth(y: int, m: int): (n: int)
    requires 1 <= m <= 12
    decreases m
  {
    if m == 1 then 0 else DaysBeforeMonth(y, m - 1) + DaysInMonth(y, m - 1)
  }

  function DayNumber(d: Date): int
    requires ValidDate(d)
  {
    DaysBeforeYear(d.year) + DaysBeforeMonth(d.year, d.month) + d.day - 1
  }

  /** Seconds since midnight of 1 January of year 1. */
  function EpochSeconds(t: DateTime): int
    requires ValidDate(t.date)
  {
    DayNumber(t.date) * SecondsPerDay + t.time
  }

  lemma DivStepBy4(y: int)
    ensures y / 4 - (y - 1) / 4 == if y % 4 == 0 then 1 else 0
  {
    var q, r := (y - 1) / 4, (y - 1) % 4;
    if r == 3 {
      assert y == 4 * (q + 1);
    } else {
      assert y == 4 * q + (r + 1);
    }
  }

  lemma DivStepBy100(y: int)
    ensures y / 100 - (y - 1) / 100 == if y % 100 == 0 then 1 else 0
  {
    var q, r := (y - 1) / 100, (y - 1) % 100;
    if r == 99 {
      assert y == 100 * (q + 1);
    } else {
      assert y == 100 * q + (r + 1);
    }
  }

  lemma DivStepBy400(y: int)
    ensures y / 400 - (y - 1) / 400 == if y % 400 == 0 then 1 else 0
  {
    var q, r := (y - 1) / 400, (y - 1) % 400;
    if r == 399 {
      assert y == 400 * (q + 1);
    } else {
      assert y == 400 * q + (r + 1);
    }
  }

  lemma Div400IsDiv100(y: int)
    requires y % 400 == 0
    ensures y % 100 == 0
  {
    var k := y / 400;
    assert y == 100 * (4 * k);
  }

  lemma Div100IsDiv4(y: int)
    requires y % 100 == 0
    ensures y % 4 == 0
  {
    var k := y / 100;
    assert y == 4 * (25 * k);
  }

  lemma {:induction false} DaysBeforeYearStep(y: int)
    ensures DaysBeforeYear(y + 1) == DaysBeforeYear(y) + DaysInYear(y)
  {
    DivStepBy4(y);
    DivStepBy100(y);
    DivStepBy400(y);
    if y % 400 == 0 {
      Div400IsDiv100(y);
      Div100IsDiv4(y);
    } else if y % 100 == 0 {
      Div100IsDiv4(y);
    }
  }

  lemma YearDays(y: int)
    ensures DaysBeforeMonth(y, 12) + DaysInMonth(y, 12) == DaysInYear(y)
  {
  }

  /** A valid date's day number lies inside its year. */
  lemma {:induction false} DayNumberWithinYear(d: Date)
    requires ValidDate(d)
    ensures DaysBeforeYear(d.year) <= DayNumber(d) < DaysBeforeYear(d.year + 1)
  {
    MonthDaysBound(d.year, d.month);
    DaysBeforeYearStep(d.year);
  }

  lemma {:induction false} MonthDaysBound(y: int, m: int)
    requires 1 <= m <= 12
    ensures DaysBeforeMonth(y, m) + DaysInMonth(y, m) <= DaysInYear(y)
    decreases 12 - m
  {
    if m < 12 {
      MonthDaysBound(y, m + 1);
    } else {
      YearDays(y);
    }
  }

  lemma {:induction false} DaysBeforeYearMonotone(y1: int, y2: int)
    requires y1 < y2
    ensures DaysBeforeYear(y1 + 1) <= DaysBeforeYear(y2)
    decreases y2 - y1
  {
    if y1 + 1 < y2 {
      DaysBeforeYearMonotone(y1 + 1, y2);
      DaysBeforeYearStep(y1 + 1);
    }
  }

  lemma {:induction false} DaysBeforeMonthMonotone(y: int, m1: int, m2: int)
    requires 1 <= m1 < m2 <= 12
    ensures DaysBeforeMonth(y, m1) + DaysInMonth(y, m1) <= DaysBeforeMonth(y, m2)
    decreases m2 - m1
  {
    if m1 + 1 < m2 {
      DaysBeforeMonthMonotone(y, m1 + 1, m2);
    }
  }

  /** Day numbers follow the calendar order exactly. */
  lemma {:induction false} DayNumberOrder(a: Date, b: Date)
    requires ValidDate(a) && ValidDate(b)
    ensures DateBefore(a, b) <==> DayNumber(a) < DayNumber(b)
    ensures a == b <==> DayNumber(a) == DayNumber(b)
  {
    if a.year < b.year {
      DayNumberWithinYear(a);
      DayNumberWithinYear(b);
      DaysBeforeYearMonotone(a.year, b.year);
    } else if b.year < a.year {
      DayNumberWithinYear(a);
      DayNumberWithinYear(b);
      DaysBeforeYearMonotone(b.year, a.year);
    } else if a.month < b.month {
      DaysBeforeMonthMonotone(a.year, a.month, b.month);
    } else if b.month < a.month {
      DaysBeforeMonthMonotone(a.year, b.month, a.month);
    }
  }

  /** Moving to the next day adds exactly one to the day number. */
  lemma {:induction false} DayNumberNextDay(d: Date)
    requires ValidDate(d)
    ensures DayNumber(NextDay(d)) == DayNumber(d) + 1
  {
    if d.day == DaysInMonth(d.year, d.month) && d.month == 12 {
      DaysBeforeYearStep(d.year);
      YearDays(d.year);
    }
  }

  /** Epoch seconds order date-times exactly as LocalDateTime.compareTo does. */
  lemma EpochSecondsOrder(a: DateTime, b: DateTime)
    requires ValidDate(a.date) && ValidDate(b.date)
    ensures DateTimeBefore(a, b) <==> EpochSeconds(a) < EpochSeconds(b)
    ensures a == b <==> EpochSeconds(a) == EpochSeconds(b)
  {
    DayNumberOrder(a.date, b.date);
  }

  // ---------------------------------------------------------------------
  // ChronoUnit.HOURS.between

  /** Whole hours in a span of seconds, truncated toward zero as
      ChronoUnit's whole-unit counts are (Dafny's `/` is Euclidean). */
  function WholeHours(seconds: int): (h: int)
    ensures seconds >= 0 ==> 0 <= h * 3600 <= seconds < h * 3600 + 3600
    ensures seconds < 0 ==> h * 3600 - 3600 < seconds <= h * 3600 <= 0
  {
    if seconds >= 0 then seconds / 3600 else -((-seconds) / 3600)
  }

  /** The number of complete hours from `from` to `to`; negative when `to`
      is earlier, truncated toward zero. */
  function HoursBetween(from: DateTime, to: DateTime): int
    requires ValidDate(from.date) && ValidDate(to.date)
  {
    WholeHours(EpochSeconds(to) - EpochSeconds(from))
  }

  /** For a positive threshold, "at least h whole hours" means "at least
      h * 3600 seconds": truncation toward zero never lifts a negative span. */
  lemma HoursAtLeast(from: DateTime, to: DateTime, h: int)
    requires ValidDate(from.date) && ValidDate(to.date)
    requires h >= 1
    ensures HoursBetween(from, to) >= h <==> EpochSeconds(to) - EpochSeconds(from) >= h * 3600
  {
  }
}
