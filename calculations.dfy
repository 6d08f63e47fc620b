/**
 * The driver-status engine: rule evaluators over (birth date, licence date,
 * reference date), the aggregate report and the remaining-time formatter.
 * The reference date ("today") is an explicit parameter throughout.
 */
module Calculations {
  import opened Wrappers
  import opened Calendar
  import opened Constants
  import opened Types

  // ---------------------------------------------------------------------------
  // End dates (fixed by the licence date and the policy constants)

  function NewDriverEndDate(licence: CalendarDate): (e: CalendarDate)
    ensures IsBefore(licence, e)
    ensures e.year == licence.year + NewDriverPeriodYears && e.month == licence.month
  {
    AddMonthsOrder(licence, 0, 12 * NewDriverPeriodYears);
    AddZeroMonths(licence);
    AddYears(licence, NewDriverPeriodYears)
  }

  function FullAccompanimentEndDate(licence: CalendarDate): (e: CalendarDate)
    ensures IsBefore(licence, e)
    ensures MonthIndex(e) == MonthIndex(licence) + FullAccompanimentMonths
  {
    AddMonthsOrder(licence, 0, FullAccompanimentMonths);
    AddZeroMonths(licence);
    AddMonths(licence, FullAccompanimentMonths)
  }

  function NightAccompanimentEndDate(licence: CalendarDate): (e: CalendarDate)
    ensures IsBefore(FullAccompanimentEndDate(licence), e)
    ensures MonthIndex(e) == MonthIndex(licence) + TotalAccompanimentMonths
  {
    AddMonthsOrder(licence, FullAccompanimentMonths, TotalAccompanimentMonths);
    AddMonths(licence, TotalAccompanimentMonths)
  }

  // ---------------------------------------------------------------------------
  // Rule evaluators

  /** Age in completed years on the reference date. */
  function CalculateAge(birth: CalendarDate, today: CalendarDate): (age: int)
    ensures age == DifferenceInYears(today, birth)
    ensures !IsBefore(today, birth) ==> age >= 0
  {
    DifferenceInYears(today, birth)
  }

  /** New driver strictly before the end of the two-year period; no longer on the end date itself. */
  function IsNewDriver(licence: CalendarDate, today: CalendarDate): (b: bool)
    ensures b <==> DayNumber(today) < DayNumber(NewDriverEndDate(licence))
    ensures today == NewDriverEndDate(licence) ==> !b
  {
    BeforeIffDayNumber(today, NewDriverEndDate(licence));
    IsBefore(today, NewDriverEndDate(licence))
  }

  /** Young while the driver's 24th birthday has not been reached. */
  function IsYoungDriver(birth: CalendarDate, today: CalendarDate): (b: bool)
    ensures b <==> CalculateAge(birth, today) < YoungDriverAge
    ensures !IsBefore(today, birth) ==> (b <==> IsBefore(today, Anniversary(birth, YoungDriverAge)))
  {
    CalculateAge(birth, today) < YoungDriverAge
  }

  /** Young on the licence date itself, i.e. licensed before the 24th birthday; independent of the reference date. */
  function WasYoungWhenLicensed(birth: CalendarDate, licence: CalendarDate): (b: bool)
    ensures b <==> CalculateAge(birth, licence) < YoungDriverAge
    ensures !IsBefore(licence, birth) ==> (b <==> IsBefore(licence, Anniversary(birth, YoungDriverAge)))
  {
    IsYoungDriver(birth, licence)
  }

  /**
   * Full accompaniment for the first three months, night-only until six months,
   * none afterwards; none at all when licensed at 24 or older.
   */
  function GetAccompanimentStatus(birth: CalendarDate, licence: CalendarDate, today: CalendarDate)
    : (s: AccompanimentStatus)
    ensures !WasYoungWhenLicensed(birth, licence) ==> s == NotRequired
    ensures WasYoungWhenLicensed(birth, licence) ==>
      && (s == Full <==> IsBefore(today, FullAccompanimentEndDate(licence)))
      && (s == Night <==> !IsBefore(today, FullAccompanimentEndDate(licence))
                          && IsBefore(today, NightAccompanimentEndDate(licence)))
      && (s == NotRequired <==> !IsBefore(today, NightAccompanimentEndDate(licence)))
  {
    if !WasYoungWhenLicensed(birth, licence) then NotRequired
    else if IsBefore(today, FullAccompanimentEndDate(licence)) then Full
    else if IsBefore(today, NightAccompanimentEndDate(licence)) then Night
    else NotRequired
  }

  /** Position of a mode in the sequence full, night, none. */
  function Stage(s: AccompanimentStatus): nat {
    match s
    case Full => 0
    case Night => 1
    case NotRequired => 2
  }

  /** As the reference date advances the mode only moves full -> night -> none. */
  lemma {:induction false} AccompanimentOnlyAdvances(
    birth: CalendarDate, licence: CalendarDate, r1: CalendarDate, r2: CalendarDate)
    requires !IsBefore(r2, r1)
    ensures Stage(GetAccompanimentStatus(birth, licence, r1)) <= Stage(GetAccompanimentStatus(birth, licence, r2))
  {
    BeforeIffDayNumber(r2, r1);
    BeforeIffDayNumber(r1, FullAccompanimentEndDate(licence));
    BeforeIffDayNumber(r2, FullAccompanimentEndDate(licence));
    BeforeIffDayNumber(r1, NightAccompanimentEndDate(licence));
    BeforeIffDayNumber(r2, NightAccompanimentEndDate(licence));
  }

  /** Licensed at 24 or older: no accompaniment on any reference date. */
  lemma Exemption(birth: CalendarDate, licence: CalendarDate, today: CalendarDate)
    requires CalculateAge(birth, licence) >= YoungDriverAge
    ensures GetAccompanimentStatus(birth, licence, today) == NotRequired
  {
  }

  /** Two passengers for a new driver under 21; otherwise no limit (never zero). */
  function GetPassengerLimit(birth: CalendarDate, licence: CalendarDate, today: CalendarDate)
    : (limit: Option<int>)
    ensures limit.Some? <==> IsNewDriver(licence, today) && CalculateAge(birth, today) < PassengerLimitAge
    ensures limit.Some? ==> limit.value == MaxPassengersWithLimit
    ensures limit != Some(0)
  {
    var age := CalculateAge(birth, today);
    var newDriver := IsNewDriver(licence, today);
    if newDriver && age < PassengerLimitAge then Some(MaxPassengersWithLimit) else None
  }

  // ---------------------------------------------------------------------------
  // Derived figures

  /** Whole days left until `end`, never negative. */
  function GetDaysRemaining(end: CalendarDate, today: CalendarDate): (n: int)
    ensures n >= 0
    ensures n > 0 <==> IsBefore(today, end)
    ensures IsBefore(today, end) ==> n == DayNumber(end) - DayNumber(today)
  {
    var days := DifferenceInDays(end, today);
    if days < 0 then 0 else days
  }

  /** A later reference date lowers the count by at most the days in between, and never raises it. */
  lemma DaysRemainingStep(end: CalendarDate, r1: CalendarDate, r2: CalendarDate)
    requires !IsBefore(r2, r1)
    ensures 0 <= GetDaysRemaining(end, r1) - GetDaysRemaining(end, r2) <= DifferenceInDays(r2, r1)
  {
    BeforeIffDayNumber(r2, r1);
    BeforeIffDayNumber(r1, end);
    BeforeIffDayNumber(r2, end);
  }

  function ClampPercent(x: real): (p: real)
    ensures 0.0 <= p <= 100.0
    ensures 0.0 <= x <= 100.0 ==> p == x
    ensures x < 0.0 ==> p == 0.0
    ensures x > 100.0 ==> p == 100.0
  {
    if x < 0.0 then 0.0 else if x > 100.0 then 100.0 else x
  }

  /**
   * Share of the interval from `start` to `end` elapsed on `today`, as a
   * percentage in [0, 100]; exactly 100 for an empty interval or once `end` is reached.
   */
  function GetProgressPercentage(start: CalendarDate, end: CalendarDate, today: CalendarDate)
    : (p: real)
    ensures 0.0 <= p <= 100.0
    ensures !IsBefore(start, end) ==> p == 100.0
    ensures !IsBefore(today, end) ==> p == 100.0
    ensures IsBefore(start, end) && !IsBefore(start, today) ==> p == 0.0
    ensures IsBefore(start, today) && IsBefore(today, end) ==> 0.0 < p < 100.0
    ensures IsBefore(start, end) ==>
      p == ClampPercent(DifferenceInDays(today, start) as real / DifferenceInDays(end, start) as real * 100.0)
  {
    var totalDays := DifferenceInDays(end, start);
    var elapsedDays := DifferenceInDays(today, start);
    if totalDays <= 0 then 100.0
    else
      BeforeIffDayNumber(today, end);
      RatioBounds(elapsedDays, totalDays);
      ClampPercent(elapsedDays as real / totalDays as real * 100.0)
  }

  lemma RatioBounds(e: int, t: int)
    requires t > 0
    ensures e <= 0 ==> e as real / t as real * 100.0 <= 0.0
    ensures e >= t ==> e as real / t as real * 100.0 >= 100.0
    ensures 0 < e < t ==> 0.0 < e as real / t as real * 100.0 < 100.0
  {
    var q := e as real / t as real;
    assert q * t as real == e as real;
  }

  /** Progress never goes backwards as the reference date advances. */
  lemma {:induction false} ProgressMonotone(
    start: CalendarDate, end: CalendarDate, r1: CalendarDate, r2: CalendarDate)
    requires !IsBefore(r2, r1)
    ensures GetProgressPercentage(start, end, r1) <= GetProgressPercentage(start, end, r2)
  {
    BeforeIffDayNumber(r2, r1);
    var t := DifferenceInDays(end, start);
    if t > 0 {
      RatioMonotone(DifferenceInDays(r1, start), DifferenceInDays(r2, start), t);
    }
  }

  lemma RatioMonotone(e1: int, e2: int, t: int)
    requires t > 0 && e1 <= e2
    ensures e1 as real / t as real * 100.0 <= e2 as real / t as real * 100.0
  {
    var x1, x2 := e1 as real / t as real, e2 as real / t as real;
    assert x1 * t as real == e1 as real;
    assert x2 * t as real == e2 as real;
    assert (x2 - x1) * t as real >= 0.0;
  }

  // ---------------------------------------------------------------------------
  // The aggregate report

  /**
   * What every report satisfies on its own: counts never negative, progress in
   * [0, 100], the nullable fields populated together, and the flags, counts
   * and progress values telling the same story about each period.
   */
  predicate ReportInvariant(s: DriverStatus) {
    && s.daysRemainingNewDriver >= 0
    && s.daysRemainingFullAccompaniment >= 0
    && s.daysRemainingNightAccompaniment >= 0
    && 0.0 <= s.newDriverProgress <= 100.0
    && 0.0 <= s.fullAccompanimentProgress <= 100.0
    && 0.0 <= s.nightAccompanimentProgress <= 100.0
    && s.newDriverEndDate.Some?
    && (s.hasPassengerLimit <==> s.passengerLimit.Some?)
    && (s.passengerLimit.Some? ==> s.passengerLimit.value == MaxPassengersWithLimit && s.isNewDriver)
    && (s.fullAccompanimentEndDate.Some? <==> s.wasYoungWhenLicensed)
    && (s.nightAccompanimentEndDate.Some? <==> s.wasYoungWhenLicensed)
    && (s.isNewDriver <==> s.daysRemainingNewDriver > 0)
    && (s.isNewDriver <==> s.newDriverProgress < 100.0)
    && (!s.wasYoungWhenLicensed ==>
          && s.accompanimentStatus == NotRequired
          && s.daysRemainingFullAccompaniment == 0 && s.daysRemainingNightAccompaniment == 0
          && s.fullAccompanimentProgress == 100.0 && s.nightAccompanimentProgress == 100.0)
    && (s.accompanimentStatus == Full <==> s.daysRemainingFullAccompaniment > 0)
    && (s.accompanimentStatus == Full <==> s.fullAccompanimentProgress < 100.0)
    && (s.accompanimentStatus != NotRequired <==> s.daysRemainingNightAccompaniment > 0)
    && (s.accompanimentStatus != NotRequired <==> s.nightAccompanimentProgress < 100.0)
  }

  /**
   * The status report for the parsed birth and licence dates on `today`;
   * no report when either date is missing or failed to parse.
   */
  function CalculateDriverStatus(birth: Option<CalendarDate>, licence: Option<CalendarDate>, today: CalendarDate)
    : (r: Option<DriverStatus>)
    ensures r.None? <==> birth.None? || licence.None?
    ensures r.Some? ==> ReportInvariant(r.value)
    ensures r.Some? ==>
      var b, l, s := birth.value, licence.value, r.value;
      && s.age == CalculateAge(b, today)
      && s.isNewDriver == IsNewDriver(l, today)
      && s.isYoungDriver == IsYoungDriver(b, today)
      && s.wasYoungWhenLicensed == WasYoungWhenLicensed(b, l)
      && s.accompanimentStatus == GetAccompanimentStatus(b, l, today)
      && s.passengerLimit == GetPassengerLimit(b, l, today)
      && s.newDriverEndDate == Some(NewDriverEndDate(l))
      && s.daysRemainingNewDriver == GetDaysRemaining(NewDriverEndDate(l), today)
      && s.newDriverProgress == GetProgressPercentage(l, NewDriverEndDate(l), today)
      && (s.wasYoungWhenLicensed ==>
            && s.fullAccompanimentEndDate == Some(FullAccompanimentEndDate(l))
            && s.nightAccompanimentEndDate == Some(NightAccompanimentEndDate(l))
            && s.daysRemainingFullAccompaniment == GetDaysRemaining(FullAccompanimentEndDate(l), today)
            && s.daysRemainingNightAccompaniment == GetDaysRemaining(NightAccompanimentEndDate(l), today)
            && s.fullAccompanimentProgress == GetProgressPercentage(l, FullAccompanimentEndDate(l), today)
            && s.nightAccompanimentProgress
               == GetProgressPercentage(FullAccompanimentEndDate(l), NightAccompanimentEndDate(l), today))
  {
    if birth.None? || licence.None? then None
    else
      var b, l := birth.value, licence.value;
      var age := CalculateAge(b, today);
      var newDriver := IsNewDriver(l, today);
      var youngDriver := IsYoungDriver(b, today);
      var youngWhenLicensed := WasYoungWhenLicensed(b, l);
      var accompanimentStatus := GetAccompanimentStatus(b, l, today);
      var passengerLimit := GetPassengerLimit(b, l, today);
      var newDriverEnd := NewDriverEndDate(l);
      var fullEnd: Option<CalendarDate> := if youngWhenLicensed then Some(FullAccompanimentEndDate(l)) else None;
      var nightEnd: Option<CalendarDate> := if youngWhenLicensed then Some(NightAccompanimentEndDate(l)) else None;
      var s := DriverStatus(
        isNewDriver := newDriver,
        isYoungDriver := youngDriver,
        accompanimentStatus := accompanimentStatus,
        hasPassengerLimit := passengerLimit.Some?,
        passengerLimit := passengerLimit,
        age := age,
        newDriverEndDate := Some(newDriverEnd),
        fullAccompanimentEndDate := fullEnd,
        nightAccompanimentEndDate := nightEnd,
        daysRemainingNewDriver := GetDaysRemaining(newDriverEnd, today),
        daysRemainingFullAccompaniment := if fullEnd.Some? then GetDaysRemaining(fullEnd.value, today) else 0,
        daysRemainingNightAccompaniment := if nightEnd.Some? then GetDaysRemaining(nightEnd.value, today) else 0,
        newDriverProgress := GetProgressPercentage(l, newDriverEnd, today),
        fullAccompanimentProgress :=
          if fullEnd.Some? then GetProgressPercentage(l, fullEnd.value, today) else 100.0,
        nightAccompanimentProgress :=
          if nightEnd.Some? then GetProgressPercentage(FullAccompanimentEndDate(l), nightEnd.value, today) else 100.0,
        wasYoungWhenLicensed := youngWhenLicensed);
      Some(s)
  }

  /** The report is a pure function of its inputs: every end date ignores the reference date. */
  lemma EndDatesIgnoreReferenceDate(
    birth: CalendarDate, licence: CalendarDate, t1: CalendarDate, t2: CalendarDate)
    ensures var s1, s2 := CalculateDriverStatus(Some(birth), Some(licence), t1).value,
                          CalculateDriverStatus(Some(birth), Some(licence), t2).value;
      && s1.newDriverEndDate == s2.newDriverEndDate
      && s1.fullAccompanimentEndDate == s2.fullAccompanimentEndDate
      && s1.nightAccompanimentEndDate == s2.nightAccompanimentEndDate
      && s1.wasYoungWhenLicensed == s2.wasYoungWhenLicensed
  {
  }

  // ---------------------------------------------------------------------------
  // Remaining-time formatter

  /** The coarse wording buckets of the remaining-time text. */
  datatype RemainingText =
    | Ended
    | OneDay
    | Days(count: int)
    | AboutAMonth
    | AboutMonths(months: int)
    | AboutAYear
    | AboutYears(years: int)

  /** JavaScript `Math.round(num / den)`: nearest integer, halves rounded up. */
  function RoundHalfUp(num: int, den: int): (k: int)
    requires den > 0
    ensures 2 * den * k - den <= 2 * num < 2 * den * k + den
  {
    var q := (2 * num + den) / (2 * den);
    assert (2 * den) * q <= 2 * num + den < (2 * den) * q + 2 * den;
    q
  }

  /**
   * The bucket for a remaining-day count. The tests are made in a fixed order,
   * so every count lands in exactly one bucket.
   */
  function FormatDaysRemaining(days: int): (t: RemainingText)
    ensures t == Ended <==> days == 0
    ensures t == OneDay <==> days == 1
    ensures t.Days? <==> days < 30 && days != 0 && days != 1
    ensures t.Days? ==> t.count == days
    ensures t == AboutAMonth <==> 30 <= days < 60
    ensures t.AboutMonths? <==> 60 <= days < 365
    ensures t.AboutMonths? ==> 2 <= t.months <= 12 && 30 * t.months - 15 <= days < 30 * t.months + 15
    ensures t == AboutAYear <==> 365 <= days < 730
    ensures t.AboutYears? <==> days >= 730
    ensures t.AboutYears? ==> t.years >= 2 && 365 * t.years - 183 < days < 365 * t.years + 183
  {
    if days == 0 then Ended
    else if days == 1 then OneDay
    else if days < 30 then Days(days)
    else if days < 60 then AboutAMonth
    else if days < 365 then AboutMonths(RoundHalfUp(days, 30))
    else if days < 730 then AboutAYear
    else AboutYears(RoundHalfUp(days, 365))
  }
}
