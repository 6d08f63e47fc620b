/**
 * Proleptic Gregorian calendar dates and the date-fns helpers the status
 * engine relies on (differenceInYears, differenceInDays, addYears, addMonths,
 * isBefore), stated as explicit definitions on whole calendar dates.
 */
module Calendar {

  /** A (year, month, day) triple; `ValidDate` says when it names a real day. */
  datatype Date = Date(year: int, month: int, day: int)

  predicate IsLeapYear(y: int) {
    y % 4 == 0 && (y % 100 != 0 || y % 400 == 0)
  }

  function DaysInMonth(y: int, m: int): (n: int)
    requires 1 <= m <= 12
    ensures 28 <= n <= 31
    ensures m == 2 ==> (n == 29 <==> IsLeapYear(y))
    ensures m != 2 ==> (n == 30 <==> m in {4, 6, 9, 11})
  {
    if m == 2 then (if IsLeapYear(y) then 29 else 28)
    else if m == 4 || m == 6 || m == 9 || m == 11 then 30
    else 31
  }

  predicate ValidDate(d: Date) {
    1 <= d.month <= 12 && 1 <= d.day <= DaysInMonth(d.year, d.month)
  }

  /** A date that exists in the Gregorian calendar. */
  type CalendarDate = d: Date | ValidDate(d) witness Date(1970, 1, 1)

  /** Strict calendar order (date-fns `isBefore` on dates at midnight). */
  predicate IsBefore(a: Date, b: Date) {
    a.year < b.year
    || (a.year == b.year && (a.month < b.month || (a.month == b.month && a.day < b.day)))
  }

  /** (month, day) of `a` comes strictly before (month, day) of `b`, ignoring years. */
  predicate MonthDayBefore(a: Date, b: Date) {
    a.month < b.month || (a.month == b.month && a.day < b.day)
  }

  // ---------------------------------------------------------------------------
  // Day numbers: 0001-01-01 is day 1; consecutive days have consecutive numbers.

  function DaysBeforeYear(y: int): int {
    var p := y - 1;
    365 * p + p / 4 - p / 100 + p / 400
  }

  function DaysBeforeMonth(y: int, m: int): (n: int)
    requires 1 <= m <= 13
    ensures 28 * (m - 1) <= n <= 31 * (m - 1)
    decreases m
  {
    if m == 1 then 0 else DaysBeforeMonth(y, m - 1) + DaysInMonth(y, m - 1)
  }

  function DayNumber(d: CalendarDate): int {
    DaysBeforeYear(d.year) + DaysBeforeMonth(d.year, d.month) + d.day
  }

  /** date-fns `differenceInDays(later, earlier)` on whole dates: signed day count. */
  function DifferenceInDays(later: CalendarDate, earlier: CalendarDate): (n: int)
    ensures n > 0 <==> IsBefore(earlier, later)
    ensures n < 0 <==> IsBefore(later, earlier)
    ensures n == 0 <==> later == earlier
  {
    BeforeIffDayNumber(earlier, later);
    BeforeIffDayNumber(later, earlier);
    Trichotomy(later, earlier);
    DayNumber(later) - DayNumber(earlier)
  }

  lemma Trichotomy(a: Date, b: Date)
    ensures IsBefore(a, b) || IsBefore(b, a) || a == b
    ensures !(IsBefore(a, b) && IsBefore(b, a))
  {
  }

  lemma DivStep(y: int, k: int)
    requires k > 0
    ensures y / k - (y - 1) / k == (if y % k == 0 then 1 else 0)
  {
    var q, r := (y - 1) / k, (y - 1) % k;
    assert y - 1 == k * q + r && 0 <= r < k;
    if r == k - 1 {
      assert y == k * (q + 1);
      DivUnique(y, k, q + 1, 0);
    } else {
      assert y == k * q + (r + 1);
      DivUnique(y, k, q, r + 1);
    }
  }

  lemma DivUnique(a: int, k: int, q: int, s: int)
    requires k > 0 && 0 <= s < k && a == k * q + s
    ensures a / k == q && a % k == s
  {
    var q', s' := a / k, a % k;
    assert k * q' + s' == a;
    MulDistinct(k, q', q, s', s);
  }

  lemma MulDistinct(k: int, x: int, y: int, s: int, t: int)
    requires k > 0 && 0 <= s < k && 0 <= t < k && k * x + s == k * y + t
    ensures x == y && s == t
  {
    if x > y {
      MulAtLeast(k, x - y);
    } else if x < y {
      MulAtLeast(k, y - x);
    }
  }

  lemma MulAtLeast(k: int, n: int)
    requires k > 0 && n >= 1
    ensures k * n >= k
  {
  }

  /** The number of days in year `y` is 366 exactly in leap years. */
  lemma {:induction false} DaysInYear(y: int)
    ensures DaysBeforeYear(y + 1) - DaysBeforeYear(y) == if IsLeapYear(y) then 366 else 365
  {
    DivStep(y, 4);
    DivStep(y, 100);
    DivStep(y, 400);
    if y % 100 == 0 {
      assert y % 4 == 0 by { DivUnique(y, 4, 25 * (y / 100), 0); }
    }
    if y % 400 == 0 {
      assert y % 100 == 0 by { DivUnique(y, 100, 4 * (y / 400), 0); }
    }
  }

  lemma {:induction false} DaysBeforeMonthMonotone(y: int, m: int, m': int)
    requires 1 <= m < m' <= 13
    ensures DaysBeforeMonth(y, m) + DaysInMonth(y, m) <= DaysBeforeMonth(y, m')
    decreases m' - m
  {
    if m + 1 < m' {
      DaysBeforeMonthMonotone(y, m + 1, m');
    }
  }

  lemma {:induction false} DaysBeforeYearEnd(y: int)
    ensures DaysBeforeMonth(y, 13) == if IsLeapYear(y) then 366 else 365
  {
  }

  lemma {:induction false} DaysBeforeYearMonotone(y: int, y': int)
    requires y < y'
    ensures DaysBeforeYear(y + 1) <= DaysBeforeYear(y')
    decreases y' - y
  {
    if y + 1 < y' {
      DaysInYear(y + 1);
      DaysBeforeYearMonotone(y + 1, y');
    }
  }

  /** Every date of year `y` lies within that year's range of day numbers. */
  lemma DayNumberInYear(d: CalendarDate)
    ensures DaysBeforeYear(d.year) < DayNumber(d) <= DaysBeforeYear(d.year + 1)
  {
    DaysInYear(d.year);
    DaysBeforeYearEnd(d.year);
    if d.month < 12 {
      DaysBeforeMonthMonotone(d.year, d.month, 13);
    }
  }

  /** Calendar order and day-number order agree. */
  lemma {:induction false} BeforeIffDayNumber(a: CalendarDate, b: CalendarDate)
    ensures IsBefore(a, b) <==> DayNumber(a) < DayNumber(b)
  {
    DayNumberInYear(a);
    DayNumberInYear(b);
    if a.year < b.year {
      DaysBeforeYearMonotone(a.year, b.year);
    } else if b.year < a.year {
      DaysBeforeYearMonotone(b.year, a.year);
    } else if a.month < b.month {
      DaysBeforeMonthMonotone(a.year, a.month, b.month);
    } else if b.month < a.month {
      DaysBeforeMonthMonotone(b.year, b.month, a.month);
    }
  }

  /** Distinct dates have distinct day numbers. */
  lemma DayNumberInjective(a: CalendarDate, b: CalendarDate)
    ensures DayNumber(a) == DayNumber(b) <==> a == b
  {
    BeforeIffDayNumber(a, b);
    BeforeIffDayNumber(b, a);
    Trichotomy(a, b);
  }

  /** The calendar day after `d`. */
  function NextDay(d: CalendarDate): (e: CalendarDate)
    ensures IsBefore(d, e)
  {
    if d.day < DaysInMonth(d.year, d.month) then Date(d.year, d.month, d.day + 1)
    else if d.month < 12 then Date(d.year, d.month + 1, 1)
    else Date(d.year + 1, 1, 1)
  }

  /** Day numbers count days: the next day has the next number. */
  lemma DayNumberNextDay(d: CalendarDate)
    ensures DayNumber(NextDay(d)) == DayNumber(d) + 1
  {
    if d.day == DaysInMonth(d.year, d.month) && d.month == 12 {
      DaysInYear(d.year);
      DaysBeforeYearEnd(d.year);
    }
  }

  /** Moving the later date on by one day adds exactly one to the day difference. */
  lemma DifferenceInDaysNextDay(later: CalendarDate, earlier: CalendarDate)
    ensures DifferenceInDays(NextDay(later), earlier) == DifferenceInDays(later, earlier) + 1
    ensures DifferenceInDays(NextDay(earlier), earlier) == 1
  {
    DayNumberNextDay(later);
    DayNumberNextDay(earlier);
  }

  // ---------------------------------------------------------------------------
  // Month arithmetic (date-fns addMonths / addYears)

  /** Months elapsed since January of year 0. */
  function MonthIndex(d: Date): int {
    d.year * 12 + d.month - 1
  }

  function Min(a: int, b: int): int {
    if a <= b then a else b
  }

  /**
   * date-fns `addMonths`: the same day of the month `n` months later; when that
   * month is too short, its last day.
   */
  function AddMonths(d: CalendarDate, n: int): (r: CalendarDate)
    ensures MonthIndex(r) == MonthIndex(d) + n
    ensures d.day <= DaysInMonth(r.year, r.month) ==> r.day == d.day
    ensures d.day > DaysInMonth(r.year, r.month) ==> r.day == DaysInMonth(r.year, r.month)
  {
    var i := MonthIndex(d) + n;
    var y, m := i / 12, i % 12 + 1;
    Date(y, m, Min(d.day, DaysInMonth(y, m)))
  }

  /** date-fns `addYears` is `addMonths` by twelve times as many months. */
  function AddYears(d: CalendarDate, n: int): (r: CalendarDate)
    ensures r.year == d.year + n && r.month == d.month
    ensures r.day == if d.month == 2 && d.day == 29 && !IsLeapYear(d.year + n) then 28 else d.day
  {
    var r := AddMonths(d, 12 * n);
    assert 12 * r.year + (r.month - 1) == 12 * (d.year + n) + (d.month - 1);
    MulDistinct(12, r.year, d.year + n, r.month - 1, d.month - 1);
    r
  }

  /** For real dates, an earlier month index means an earlier date. */
  lemma MonthIndexOrder(a: Date, b: Date)
    requires 1 <= a.month <= 12 && 1 <= b.month <= 12
    requires MonthIndex(a) < MonthIndex(b)
    ensures IsBefore(a, b)
  {
    if a.year > b.year {
      MulAtLeast(12, a.year - b.year);
    }
  }

  /** Adding more months gives a strictly later date. */
  lemma AddMonthsOrder(d: CalendarDate, n: int, n': int)
    requires n < n'
    ensures IsBefore(AddMonths(d, n), AddMonths(d, n'))
  {
    MonthIndexOrder(AddMonths(d, n), AddMonths(d, n'));
  }

  lemma AddZeroMonths(d: CalendarDate)
    ensures AddMonths(d, 0) == d
  {
    var r := AddMonths(d, 0);
    MulDistinct(12, r.year, d.year, r.month - 1, d.month - 1);
  }

  // ---------------------------------------------------------------------------
  // Whole years (date-fns differenceInYears)

  /** The k-th anniversary of `d` as a (year, month, day) triple; Feb 29 may fall on a non-leap year. */
  function Anniversary(d: Date, k: int): Date {
    Date(d.year + k, d.month, d.day)
  }

  /** Completed years from `earlier` to `later`, for `later` not before `earlier`. */
  function WholeYears(later: Date, earlier: Date): int {
    later.year - earlier.year - (if MonthDayBefore(later, earlier) then 1 else 0)
  }

  /**
   * date-fns `differenceInYears(later, earlier)`: the number of completed years,
   * truncated toward zero and negated when `later` is in fact earlier.
   * At least k (k >= 0) full years have passed exactly when `later` has reached
   * the (year + k, month, day) anniversary of `earlier`.
   */
  function DifferenceInYears(later: CalendarDate, earlier: CalendarDate): (n: int)
    ensures !IsBefore(later, earlier) ==> n >= 0
    ensures IsBefore(later, earlier) ==> n <= 0
    ensures !IsBefore(later, earlier) ==>
      forall k: nat :: n >= k <==> !IsBefore(later, Anniversary(earlier, k))
  {
    if IsBefore(later, earlier) then -WholeYears(earlier, later) else WholeYears(later, earlier)
  }

  /** Swapping the two dates negates the year count. */
  lemma DifferenceInYearsAntisymmetric(a: CalendarDate, b: CalendarDate)
    ensures DifferenceInYears(a, b) == -DifferenceInYears(b, a)
  {
    Trichotomy(a, b);
  }

  /** A later reference never has fewer completed years. */
  lemma DifferenceInYearsMonotone(earlier: CalendarDate, r1: CalendarDate, r2: CalendarDate)
    requires !IsBefore(r2, r1)
    ensures DifferenceInYears(r1, earlier) <= DifferenceInYears(r2, earlier)
  {
  }
}
