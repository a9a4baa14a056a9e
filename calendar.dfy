/**
 * Dates and the date helpers of autoexcel/main.py (duplicated in autoexcel/test.py): the
 * October-start fiscal year, and `networkdays`, built on numpy's `busday_count` with its
 * default Monday-to-Friday week and no holidays.
 *
 * A calendar date is a (year, month, day) triple of the proleptic Gregorian calendar, as
 * Python's `datetime` has it; a day is also numbered by the count of days since 1970-01-01,
 * which is how numpy's `datetime64[D]` holds it and how `busday_count` counts.
 */
module Calendar {
  import opened Wrappers

  /** A day number: days since 1970-01-01 (negative before it). */
  type Date = int

  datatype CalendarDate = CalendarDate(year: int, month: int, day: int)

  predicate IsLeap(year: int) {
    year % 4 == 0 && (year % 100 != 0 || year % 400 == 0)
  }

  function DaysInMonth(year: int, month: int): int {
    if month == 2 then (if IsLeap(year) then 29 else 28)
    else if month == 4 || month == 6 || month == 9 || month == 11 then 30
    else 31
  }

  /** A date `datetime` accepts (its upper bound on the year plays no part here). */
  predicate IsValid(d: CalendarDate) {
    1 <= d.year && 1 <= d.month <= 12 && 1 <= d.day <= DaysInMonth(d.year, d.month)
  }

  /** `a < b` on dates: by year, then month, then day. */
  predicate Before(a: CalendarDate, b: CalendarDate) {
    a.year < b.year
    || (a.year == b.year && a.month < b.month)
    || (a.year == b.year && a.month == b.month && a.day < b.day)
  }

  /** Days in the years 1 .. year-1. */
  function DaysBeforeYear(year: int): int {
    var y := year - 1;
    y * 365 + y / 4 - y / 100 + y / 400
  }

  /** Days in the months 1 .. month-1 of `year`. */
  function DaysBeforeMonth(year: int, month: int): int
    requires 1 <= month <= 12
  {
    var table := [0, 31, 59, 90, 120, 151, 181, 212, 243, 273, 304, 334];
    table[month - 1] + (if month > 2 && IsLeap(year) then 1 else 0)
  }

  /** The day number of a date: `date.toordinal()` counted from 1970-01-01 (whose ordinal is 719163). */
  function DayNumber(d: CalendarDate): Date
    requires 1 <= d.month <= 12
  {
    DaysBeforeYear(d.year) + DaysBeforeMonth(d.year, d.month) + d.day - 719163
  }

  /** A valid date is numbered within the span of its own year. */
  lemma DayNumberInYear(d: CalendarDate)
    requires IsValid(d)
    ensures DaysBeforeYear(d.year) - 719163 < DayNumber(d) <= DaysBeforeYear(d.year + 1) - 719163
  {
    YearEnd(d.year, d.month);
    YearLength(d.year);
  }

  /** Monday is 0 and Sunday is 6; 1970-01-01 was a Thursday. */
  function Weekday(d: Date): (w: int)
    ensures 0 <= w < 7
  {
    (d + 3) % 7
  }

  /** numpy's default weekmask "1111100": Monday to Friday are business days. */
  predicate IsBusinessDay(d: Date) {
    Weekday(d) < 5
  }

  /** The week of a Monday: five business days, then Saturday and Sunday off. */
  lemma DefaultWeekmask(monday: Date)
    requires Weekday(monday) == 0
    ensures IsBusinessDay(monday) && IsBusinessDay(monday + 1) && IsBusinessDay(monday + 2)
    ensures IsBusinessDay(monday + 3) && IsBusinessDay(monday + 4)
    ensures !IsBusinessDay(monday + 5) && !IsBusinessDay(monday + 6)
  {
    WeekdayShift(monday, 1);
    WeekdayShift(monday, 2);
    WeekdayShift(monday, 3);
    WeekdayShift(monday, 4);
    WeekdayShift(monday, 5);
    WeekdayShift(monday, 6);
  }

  // ----- the calendar arithmetic behind the day numbers -----

  lemma YearLength(year: int)
    requires year >= 1
    ensures DaysBeforeYear(year + 1) == DaysBeforeYear(year) + (if IsLeap(year) then 366 else 365)
  {
    var a, b, c := year % 4 == 0, year % 100 == 0, year % 400 == 0;
    LeapDaysStep(year - 1);
    CenturiesStep(year - 1);
    QuadCenturiesStep(year - 1);
    DivisorsNest(year);
    assert DaysBeforeYear(year + 1) - DaysBeforeYear(year)
      == 365 + (if a then 1 else 0) - (if b then 1 else 0) + (if c then 1 else 0);
  }

  /* Counting one more year adds one multiple of 4, 100 or 400 exactly when the new year is one. */

  lemma LeapDaysStep(y: int)
    requires y >= 0
    ensures (y + 1) / 4 == y / 4 + (if (y + 1) % 4 == 0 then 1 else 0)
  {
  }

  lemma CenturiesStep(y: int)
    requires y >= 0
    ensures (y + 1) / 100 == y / 100 + (if (y + 1) % 100 == 0 then 1 else 0)
  {
  }

  lemma QuadCenturiesStep(y: int)
    requires y >= 0
    ensures (y + 1) / 400 == y / 400 + (if (y + 1) % 400 == 0 then 1 else 0)
  {
  }

  lemma DivisorsNest(year: int)
    ensures year % 400 == 0 ==> year % 100 == 0
    ensures year % 100 == 0 ==> year % 4 == 0
  {
  }

  lemma {:induction false} YearsIncrease(a: int, b: int)
    requires 1 <= a <= b
    ensures DaysBeforeYear(a) + 365 * (b - a) <= DaysBeforeYear(b)
    decreases b - a
  {
    if a < b {
      YearLength(a);
      YearsIncrease(a + 1, b);
    }
  }

  lemma MonthsIncrease(year: int, m1: int, m2: int)
    requires 1 <= m1 < m2 <= 12
    ensures DaysBeforeMonth(year, m1) + DaysInMonth(year, m1) <= DaysBeforeMonth(year, m2)
  {
  }

  lemma YearEnd(year: int, month: int)
    requires 1 <= month <= 12
    ensures DaysBeforeMonth(year, month) + DaysInMonth(year, month) <= (if IsLeap(year) then 366 else 365)
  {
  }

  /** Day numbers follow the order of the calendar: a later date has a larger number. */
  lemma DayNumberMonotone(a: CalendarDate, b: CalendarDate)
    requires IsValid(a) && IsValid(b) && Before(a, b)
    ensures DayNumber(a) < DayNumber(b)
  {
    if a.year < b.year {
      YearEnd(a.year, a.month);
      YearLength(a.year);
      YearsIncrease(a.year + 1, b.year);
    } else if a.month < b.month {
      MonthsIncrease(a.year, a.month, b.month);
    }
  }

  /** Distinct valid dates have distinct day numbers, in the same order. */
  lemma DayNumberOrder(a: CalendarDate, b: CalendarDate)
    requires IsValid(a) && IsValid(b)
    ensures DayNumber(a) < DayNumber(b) <==> Before(a, b)
    ensures DayNumber(a) == DayNumber(b) <==> a == b
  {
    if Before(a, b) {
      DayNumberMonotone(a, b);
    } else if Before(b, a) {
      DayNumberMonotone(b, a);
    }
  }

  lemma EpochIsDayZero()
    ensures DayNumber(CalendarDate(1970, 1, 1)) == 0 && Weekday(0) == 3
  {
    assert DaysBeforeYear(1970) == 719162 by {
      assert 1969 / 4 == 492 && 1969 / 100 == 19 && 1969 / 400 == 4;
    }
  }

  // ----- busday_count and networkdays -----

  /** The Monday-to-Friday days d with a <= d < b. */
  function WeekdaysIn(a: Date, b: Date): (n: int)
    ensures 0 <= n && (a <= b ==> n <= b - a) && (b <= a ==> n == 0)
    decreases b - a
  {
    if b <= a then 0
    else WeekdaysIn(a, b - 1) + (if IsBusinessDay(b - 1) then 1 else 0)
  }

  /** The same count taken from its definition: the size of the set of business days in [a, b). */
  ghost function BusinessDays(a: Date, b: Date): set<Date> {
    set d | a <= d < b && IsBusinessDay(d)
  }

  lemma {:induction false} WeekdaysInCountsBusinessDays(a: Date, b: Date)
    ensures WeekdaysIn(a, b) == |BusinessDays(a, b)|
    decreases b - a
  {
    if b > a {
      WeekdaysInCountsBusinessDays(a, b - 1);
      if IsBusinessDay(b - 1) {
        assert BusinessDays(a, b) == BusinessDays(a, b - 1) + {b - 1};
      } else {
        assert BusinessDays(a, b) == BusinessDays(a, b - 1);
      }
    } else {
      assert BusinessDays(a, b) == {};
    }
  }

  lemma {:induction false} WeekdaysInAdditive(a: Date, b: Date, c: Date)
    requires a <= b <= c
    ensures WeekdaysIn(a, c) == WeekdaysIn(a, b) + WeekdaysIn(b, c)
    decreases c - b
  {
    if b < c {
      WeekdaysInAdditive(a, b, c - 1);
    }
  }

  lemma WeekdayShift(a: Date, k: int)
    requires 0 <= k < 7
    ensures Weekday(a + k) == (Weekday(a) + k) % 7
  {
    var q := (a + 3) / 7;
    assert a + 3 == 7 * q + Weekday(a);
    assert a + k + 3 == 7 * q + (Weekday(a) + k);
  }

  /** Every run of seven consecutive days holds five business days. */
  lemma WeekdaysInWeek(a: Date)
    ensures WeekdaysIn(a, a + 7) == 5
  {
    WeekdayShift(a, 1);
    WeekdayShift(a, 2);
    WeekdayShift(a, 3);
    WeekdayShift(a, 4);
    WeekdayShift(a, 5);
    WeekdayShift(a, 6);
    assert WeekdaysIn(a, a + 7) == WeekdaysIn(a, a + 6) + (if IsBusinessDay(a + 6) then 1 else 0);
    assert WeekdaysIn(a, a + 6) == WeekdaysIn(a, a + 5) + (if IsBusinessDay(a + 5) then 1 else 0);
    assert WeekdaysIn(a, a + 5) == WeekdaysIn(a, a + 4) + (if IsBusinessDay(a + 4) then 1 else 0);
    assert WeekdaysIn(a, a + 4) == WeekdaysIn(a, a + 3) + (if IsBusinessDay(a + 3) then 1 else 0);
    assert WeekdaysIn(a, a + 3) == WeekdaysIn(a, a + 2) + (if IsBusinessDay(a + 2) then 1 else 0);
    assert WeekdaysIn(a, a + 2) == WeekdaysIn(a, a + 1) + (if IsBusinessDay(a + 1) then 1 else 0);
    assert WeekdaysIn(a, a + 1) == (if IsBusinessDay(a) then 1 else 0);
  }

  /** k whole weeks hold 5k business days. */
  lemma {:induction false} WeekdaysInWeeks(a: Date, k: nat)
    ensures WeekdaysIn(a, a + 7 * k) == 5 * k
  {
    if k > 0 {
      WeekdaysInWeeks(a, k - 1);
      WeekdaysInWeek(a + 7 * (k - 1));
      WeekdaysInAdditive(a, a + 7 * (k - 1), a + 7 * k);
    }
  }

  /**
   * `np.busday_count(begin, end)`: the number of business days in [begin, end); when end comes
   * first, minus the number in [end + 1, begin + 1), as numpy 1.25 and later count it.
   */
  function BusdayCount(begin: Date, end: Date): (n: int)
    ensures begin <= end ==> n == |BusinessDays(begin, end)|
    ensures end < begin ==> n == -|BusinessDays(end + 1, begin + 1)|
  {
    if begin <= end then
      WeekdaysInCountsBusinessDays(begin, end);
      WeekdaysIn(begin, end)
    else
      WeekdaysInCountsBusinessDays(end + 1, begin + 1);
      -WeekdaysIn(end + 1, begin + 1)
  }

  /**
   * `networkdays` (main.py:112-115): no value when either date is missing, otherwise
   * `busday_count(start, end) + 1`.
   */
  function NetworkDays(start: Option<Date>, end: Option<Date>): (r: Option<int>)
    ensures r.None? <==> start.None? || end.None?
    ensures r.Some? && start.value <= end.value ==> 1 <= r.value <= end.value - start.value + 1
    ensures r.Some? && end.value < start.value ==> 1 - (start.value - end.value) <= r.value <= 1
  {
    if start.None? || end.None? then None
    else Some(BusdayCount(start.value, end.value) + 1)
  }

  lemma NetworkDaysSameDay(d: Date)
    ensures NetworkDays(Some(d), Some(d)) == Some(1)
  {
  }

  /**
   * For start <= end the result is the number of business days in [start, end], plus one
   * more when `end` itself is a Saturday or a Sunday: the added 1 counts the end day whether
   * or not it is a business day.
   */
  lemma NetworkDaysInclusive(start: Date, end: Date)
    requires start <= end
    ensures NetworkDays(Some(start), Some(end)).value
      == |BusinessDays(start, end + 1)| + (if IsBusinessDay(end) then 0 else 1)
  {
    WeekdaysInCountsBusinessDays(start, end + 1);
  }

  /** A span of k full weeks from start counts 5k + 1. */
  lemma NetworkDaysWeeks(start: Date, k: nat)
    ensures NetworkDays(Some(start), Some(start + 7 * k)) == Some(5 * k + 1)
  {
    WeekdaysInWeeks(start, k);
  }

  /** Reversing the dates mirrors the count around 1, shifted by what each end contributes. */
  lemma NetworkDaysReversed(start: Date, end: Date)
    requires end < start
    ensures NetworkDays(Some(start), Some(end)).value
      == 1 - NetworkDays(Some(end), Some(start)).value + 1
         - (if IsBusinessDay(start) then 1 else 0) + (if IsBusinessDay(end) then 1 else 0)
  {
    WeekdaysInAdditive(end, end + 1, start + 1);
    WeekdaysInAdditive(end, start, start + 1);
  }

  // ----- the fiscal year -----

  /** A fiscal year named by the calendar year it ends in, and the date it starts (1 October). */
  datatype FiscalYear = FiscalYear(year: int, start: CalendarDate)

  function OctoberFirst(year: int): CalendarDate {
    CalendarDate(year, 10, 1)
  }

  /**
   * `get_current_fiscal_year` (main.py:96-104) on today's date: from October on, the fiscal year
   * is next year's and began this 1 October; before October it is this year's and began last
   * 1 October. `datetime(0, 10, 1)` raises, so in January-September of year 1 there is none.
   * Today lies in the year returned: on or after its start, before the next 1 October.
   */
  function CurrentFiscalYear(today: CalendarDate): (r: Option<FiscalYear>)
    requires IsValid(today)
    ensures r.None? <==> today.month < 10 && today.year == 1
    ensures r.Some? ==> && r.value.year == r.value.start.year + 1
                        && r.value.start == OctoberFirst(r.value.year - 1)
                        && IsValid(r.value.start)
                        && !Before(today, r.value.start)
                        && Before(today, OctoberFirst(r.value.year))
  {
    if today.month >= 10 then Some(FiscalYear(today.year + 1, OctoberFirst(today.year)))
    else if today.year - 1 < 1 then None
    else Some(FiscalYear(today.year, OctoberFirst(today.year - 1)))
  }

  /** The fiscal year returned is the only one whose span holds today. */
  lemma FiscalYearUnique(today: CalendarDate, y: int)
    requires IsValid(today) && y >= 2
    requires !Before(today, OctoberFirst(y - 1)) && Before(today, OctoberFirst(y))
    ensures CurrentFiscalYear(today) == Some(FiscalYear(y, OctoberFirst(y - 1)))
  {
  }

  /** Measured in day numbers, today falls in [start, start of the next fiscal year). */
  lemma FiscalYearSpansToday(today: CalendarDate)
    requires IsValid(today) && CurrentFiscalYear(today).Some?
    ensures var fy := CurrentFiscalYear(today).value;
      DayNumber(fy.start) <= DayNumber(today) < DayNumber(OctoberFirst(fy.year))
  {
    var fy := CurrentFiscalYear(today).value;
    DayNumberOrder(fy.start, today);
    DayNumberOrder(today, OctoberFirst(fy.year));
  }

  /** The default start of the assigned-date filter, `datetime(2023, 7, 1)` (test.py:65, main.py:17). */
  const DefaultStart: Date := DayNumber(CalendarDate(2023, 7, 1))

  lemma DefaultStartIsSaturday()
    ensures DefaultStart == 19539 && Weekday(DefaultStart) == 5
  {
  }
}
