/**
 * Gregorian calendar arithmetic standing in for JavaScript's `Date`:
 * month lengths, a day numbering, weekdays, the local-midnight comparison
 * with "now", and the (year, month) navigation step of the month view.
 */
module Calendar {

  /** Zero-based month, as `Date.prototype.getMonth` returns it: 0 = January, 11 = December. */
  type Month = m: int | 0 <= m < 12

  /** A local calendar day: year, zero-based month, day of the month. */
  datatype Date = Date(year: int, month: Month, day: int)

  /** Local wall-clock "now": the current day and the milliseconds elapsed since its midnight. */
  datatype Instant = Instant(date: Date, msOfDay: int)

  /** The (year, month) pair that selects the calendar page on display. */
  datatype MonthKey = MonthKey(year: int, month: Month)

  const MS_PER_DAY := 86_400_000

  predicate IsLeapYear(y: int)
  {
    y % 4 == 0 && (y % 100 != 0 || y % 400 == 0)
  }

  function YearLength(y: int): int
  {
    if IsLeapYear(y) then 366 else 365
  }

  /** Number of days in month `m` of year `y`. */
  function DaysInMonth(y: int, m: Month): (n: int)
    ensures 28 <= n <= 31
    ensures m == 1 ==> (n == 29 <==> IsLeapYear(y))
    ensures m == 1 && !IsLeapYear(y) ==> n == 28
    ensures m != 1 ==> (n == 30 <==> m == 3 || m == 5 || m == 8 || m == 10)
    ensures m != 1 ==> (n == 31 <==> !(m == 3 || m == 5 || m == 8 || m == 10))
  {
    if m == 1 then (if IsLeapYear(y) then 29 else 28)
    else if m == 3 || m == 5 || m == 8 || m == 10 then 30
    else 31
  }

  predicate ValidDate(d: Date)
  {
    1 <= d.day <= DaysInMonth(d.year, d.month)
  }

  predicate ValidInstant(t: Instant)
  {
    ValidDate(t.date) && 0 <= t.msOfDay < MS_PER_DAY
  }

  /** Days in the months of year `y` that come before month `m` (m == 12: the whole year). */
  function DaysBeforeMonth(y: int, m: int): (n: int)
    requires 0 <= m <= 12
    ensures 28 * m <= n <= 31 * m
  {
    if m == 0 then 0 else DaysBeforeMonth(y, m - 1) + DaysInMonth(y, m - 1)
  }

  /** Days from 0001-01-01 to the first of January of year `y` (negative before year 1). */
  function DaysBeforeYear(y: int): int
  {
    365 * (y - 1) + (y - 1) / 4 - (y - 1) / 100 + (y - 1) / 400
  }

  /** Proleptic Gregorian day number: 0001-01-01 is day 0. */
  function DayNumber(d: Date): int
  {
    DaysBeforeYear(d.year) + DaysBeforeMonth(d.year, d.month) + d.day - 1
  }

  /** Day of the week as `Date.prototype.getDay` numbers it: 0 = Sunday … 6 = Saturday. */
  function Weekday(d: Date): (w: int)
    ensures 0 <= w < 7
  {
    // 0001-01-01 (day 0) was a Monday.
    (DayNumber(d) + 1) % 7
  }

  /** The calendar day after `d`, rolling over month and year ends. */
  function NextDay(d: Date): (e: Date)
    requires ValidDate(d)
    ensures ValidDate(e)
    ensures e.year == d.year || (e.year == d.year + 1 && e.month == 0 && e.day == 1)
  {
    if d.day < DaysInMonth(d.year, d.month) then Date(d.year, d.month, d.day + 1)
    else if d.month < 11 then Date(d.year, d.month + 1, 1)
    else Date(d.year + 1, 0, 1)
  }

  /** Lexicographic "strictly later day" on (year, month, day). */
  predicate IsAfter(a: Date, b: Date)
  {
    a.year > b.year ||
    (a.year == b.year && (a.month > b.month || (a.month == b.month && a.day > b.day)))
  }

  /** Timestamp of local midnight at the start of day `d`, in milliseconds. */
  function LocalMidnight(d: Date): int
  {
    DayNumber(d) * MS_PER_DAY
  }

  function Timestamp(t: Instant): int
  {
    LocalMidnight(t.date) + t.msOfDay
  }

  /**
   * `new Date(year, month, day) > new Date()`: midnight of the day lies after "now".
   * This is a day-granular test: a day is in the future exactly when it is
   * after today, whatever the time of day, so today itself is not.
   */
  predicate IsFutureDate(d: Date, now: Instant): (future: bool)
    ensures ValidDate(d) && ValidInstant(now) ==> (future <==> IsAfter(d, now.date))
  {
    if ValidDate(d) && ValidInstant(now) then
      AfterIffLaterDayNumber(d, now.date);
      LocalMidnight(d) > Timestamp(now)
    else
      LocalMidnight(d) > Timestamp(now)
  }

  /** Month number counted from January of year 0; used as the reference for navigation. */
  function MonthIndex(k: MonthKey): int
  {
    12 * k.year + k.month
  }

  /** `handlePreviousMonth`: one month back, January rolls over to December of the previous year. */
  function PreviousMonth(k: MonthKey): (p: MonthKey)
    ensures MonthIndex(p) == MonthIndex(k) - 1
  {
    if k.month == 0 then MonthKey(k.year - 1, 11) else MonthKey(k.year, k.month - 1)
  }

  /** `handleNextMonth`: one month forward, December rolls over to January of the next year. */
  function NextMonth(k: MonthKey): (n: MonthKey)
    ensures MonthIndex(n) == MonthIndex(k) + 1
  {
    if k.month == 11 then MonthKey(k.year + 1, 0) else MonthKey(k.year, k.month + 1)
  }

  // ---------------------------------------------------------------------
  // Month navigation

  /**
   * A month key is determined by its month index, so the `MonthIndex`
   * contracts of `PreviousMonth` and `NextMonth` pin down their results.
   */
  lemma MonthIndexInjective(a: MonthKey, b: MonthKey)
    requires MonthIndex(a) == MonthIndex(b)
    ensures a == b
  {
  }

  lemma NavigationRoundTrip(k: MonthKey)
    ensures NextMonth(PreviousMonth(k)) == k
    ensures PreviousMonth(NextMonth(k)) == k
  {
    MonthIndexInjective(NextMonth(PreviousMonth(k)), k);
    MonthIndexInjective(PreviousMonth(NextMonth(k)), k);
  }

  lemma NavigationRollover(y: int)
    ensures PreviousMonth(MonthKey(y, 0)) == MonthKey(y - 1, 11)
    ensures NextMonth(MonthKey(y, 11)) == MonthKey(y + 1, 0)
  {
  }

  // ---------------------------------------------------------------------
  // Day numbering

  lemma {:induction false} WholeYear(y: int)
    ensures DaysBeforeMonth(y, 12) == YearLength(y)
  {
    assert DaysBeforeMonth(y, 1) == 31;
    assert DaysBeforeMonth(y, 2) == 31 + DaysInMonth(y, 1);
    assert DaysBeforeMonth(y, 3) == 62 + DaysInMonth(y, 1);
    assert DaysBeforeMonth(y, 4) == 92 + DaysInMonth(y, 1);
    assert DaysBeforeMonth(y, 5) == 123 + DaysInMonth(y, 1);
    assert DaysBeforeMonth(y, 6) == 153 + DaysInMonth(y, 1);
    assert DaysBeforeMonth(y, 7) == 184 + DaysInMonth(y, 1);
    assert DaysBeforeMonth(y, 8) == 215 + DaysInMonth(y, 1);
    assert DaysBeforeMonth(y, 9) == 245 + DaysInMonth(y, 1);
    assert DaysBeforeMonth(y, 10) == 276 + DaysInMonth(y, 1);
    assert DaysBeforeMonth(y, 11) == 306 + DaysInMonth(y, 1);
  }

  /** Consecutive new years are a year length apart. */
  lemma YearStep(y: int)
    ensures DaysBeforeYear(y + 1) == DaysBeforeYear(y) + YearLength(y)
  {
    FloorStep4(y);
    FloorStep100(y);
    FloorStep400(y);
  }

  lemma FloorStep4(y: int)
    ensures y / 4 - (y - 1) / 4 == if y % 4 == 0 then 1 else 0
  {
  }

  lemma FloorStep100(y: int)
    ensures y / 100 - (y - 1) / 100 == if y % 100 == 0 then 1 else 0
    ensures y % 100 == 0 ==> y % 4 == 0
  {
    if y % 100 == 0 {
      assert y == 4 * (25 * (y / 100));
    }
  }

  lemma FloorStep400(y: int)
    ensures y / 400 - (y - 1) / 400 == if y % 400 == 0 then 1 else 0
    ensures y % 400 == 0 ==> y % 100 == 0
  {
    if y % 400 == 0 {
      assert y == 100 * (4 * (y / 400));
    }
  }

  lemma {:induction false} DaysBeforeMonthMonotone(y: int, m: int, n: int)
    requires 0 <= m <= n <= 12
    ensures DaysBeforeMonth(y, m) <= DaysBeforeMonth(y, n)
    decreases n - m
  {
    if m < n {
      DaysBeforeMonthMonotone(y, m + 1, n);
    }
  }

  lemma {:induction false} DaysBeforeYearMonotone(a: int, b: int)
    requires a <= b
    ensures DaysBeforeYear(a) <= DaysBeforeYear(b)
    decreases b - a
  {
    if a < b {
      YearStep(a);
      DaysBeforeYearMonotone(a + 1, b);
    }
  }

  /** Every valid day of year `y` is numbered within that year's range. */
  lemma DayNumberWithinYear(d: Date)
    requires ValidDate(d)
    ensures DaysBeforeYear(d.year) <= DayNumber(d) < DaysBeforeYear(d.year + 1)
  {
    YearStep(d.year);
    WholeYear(d.year);
    DaysBeforeMonthMonotone(d.year, d.month + 1, 12);
  }

  /** The day numbering counts days: the next day has the next number. */
  lemma NextDayNumber(d: Date)
    requires ValidDate(d)
    ensures DayNumber(NextDay(d)) == DayNumber(d) + 1
  {
    if d.day == DaysInMonth(d.year, d.month) && d.month == 11 {
      YearStep(d.year);
      WholeYear(d.year);
    }
  }

  /** Weekdays advance by one per day, wrapping from Saturday to Sunday. */
  lemma WeekdayOfNextDay(d: Date)
    requires ValidDate(d)
    ensures Weekday(NextDay(d)) == (Weekday(d) + 1) % 7
  {
    NextDayNumber(d);
    SuccessorMod7(DayNumber(d) + 1);
  }

  lemma SuccessorMod7(w: int)
    ensures (w + 1) % 7 == (w % 7 + 1) % 7
  {
    var q, r := w / 7, w % 7;
    assert w + 1 == 7 * q + (r + 1);
    if r == 6 {
      assert w + 1 == 7 * (q + 1);
    }
  }

  /**
   * `getDaysInMonth` asks for day 0 of the following month, which `Date` resolves
   * to the day before that month's first day: the last day of month `m`.
   */
  lemma DayZeroOfNextMonth(y: int, m: Month)
    ensures var k := NextMonth(MonthKey(y, m));
      DayNumber(Date(k.year, k.month, 1)) - 1 == DayNumber(Date(y, m, DaysInMonth(y, m)))
  {
    var last := Date(y, m, DaysInMonth(y, m));
    NextDayNumber(last);
    var k := NextMonth(MonthKey(y, m));
    assert NextDay(last) == Date(k.year, k.month, 1);
  }

  lemma AddMod7(w: int, k: int)
    ensures (w + k) % 7 == (w % 7 + k) % 7
  {
    var q := w / 7;
    assert w + k == 7 * q + (w % 7 + k);
  }

  /** Anchor: 1970-01-01, the epoch of `Date` timestamps, was a Thursday (`getDay` 4). */
  lemma WeekdayAnchor()
    ensures Weekday(Date(1970, 0, 1)) == 4
  {
    assert DaysBeforeYear(1970) == 719162;
  }

  /** Lexicographic order on valid days is the order of their day numbers. */
  lemma AfterIffLaterDayNumber(a: Date, b: Date)
    requires ValidDate(a) && ValidDate(b)
    ensures IsAfter(a, b) <==> DayNumber(a) > DayNumber(b)
  {
    DayNumberWithinYear(a);
    DayNumberWithinYear(b);
    if a.year < b.year {
      DaysBeforeYearMonotone(a.year + 1, b.year);
    } else if a.year > b.year {
      DaysBeforeYearMonotone(b.year + 1, a.year);
    } else if a.month < b.month {
      DaysBeforeMonthMonotone(a.year, a.month + 1, b.month);
    } else if a.month > b.month {
      DaysBeforeMonthMonotone(a.year, b.month + 1, a.month);
    }
  }
}
