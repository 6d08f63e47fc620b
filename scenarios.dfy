/** Worked examples of the engine with the reference date fixed at 2024-06-15. */
module Scenarios {
  import opened Wrappers
  import opened Calendar
  import opened Types
  import opened Calculations

  const Today: CalendarDate := Date(2024, 6, 15)

  /** Licensed at 18: past the accompaniment periods, still a new driver with the passenger limit. */
  lemma YoungNewDriverAfterAccompaniment()
    ensures var s := CalculateDriverStatus(Some(Date(2005, 1, 1)), Some(Date(2023, 1, 1)), Today).value;
      && s.age == 19
      && s.isNewDriver && s.newDriverEndDate == Some(Date(2025, 1, 1))
      && s.wasYoungWhenLicensed
      && s.fullAccompanimentEndDate == Some(Date(2023, 4, 1))
      && s.nightAccompanimentEndDate == Some(Date(2023, 7, 1))
      && s.accompanimentStatus == NotRequired
      && s.hasPassengerLimit && s.passengerLimit == Some(2)
  {
  }

  /** Licensed at 34: permanently exempt from accompaniment. */
  lemma LicensedAtThirtyFour()
    ensures var s := CalculateDriverStatus(Some(Date(1990, 1, 1)), Some(Date(2024, 5, 1)), Today).value;
      && s.age == 34
      && !s.wasYoungWhenLicensed
      && s.accompanimentStatus == NotRequired
      && s.fullAccompanimentEndDate.None? && s.nightAccompanimentEndDate.None?
      && s.daysRemainingFullAccompaniment == 0
      && !s.hasPassengerLimit
  {
  }

  /** Licensed at 20, two and a half months ago: full accompaniment until 2024-07-01. */
  lemma FullAccompanimentPeriod()
    ensures var s := CalculateDriverStatus(Some(Date(2004, 1, 1)), Some(Date(2024, 4, 1)), Today).value;
      && s.wasYoungWhenLicensed
      && s.accompanimentStatus == Full
      && s.fullAccompanimentEndDate == Some(Date(2024, 7, 1))
      && s.daysRemainingFullAccompaniment == 16
  {
  }

  /** The new-driver period ended on 2024-01-01. */
  lemma NewDriverPeriodOver()
    ensures var s := CalculateDriverStatus(Some(Date(2000, 1, 1)), Some(Date(2022, 1, 1)), Today).value;
      && !s.isNewDriver
      && s.daysRemainingNewDriver == 0
      && s.newDriverProgress == 100.0
  {
  }

  /** Missing input gives no report. */
  lemma MissingInput()
    ensures CalculateDriverStatus(None, Some(Date(2022, 1, 1)), Today).None?
  {
  }

  lemma FormatterExamples()
    ensures FormatDaysRemaining(0) == Ended
    ensures FormatDaysRemaining(1) == OneDay
    ensures FormatDaysRemaining(45) == AboutAMonth
    ensures FormatDaysRemaining(75) == AboutMonths(3)
    ensures FormatDaysRemaining(1000) == AboutYears(3)
  {
  }

  /** End-of-month clamping: Jan 31 plus a month, and Feb 29 plus two years. */
  lemma ClampExamples()
    ensures AddMonths(Date(2024, 1, 31), 1) == Date(2024, 2, 29)
    ensures AddMonths(Date(2023, 1, 31), 1) == Date(2023, 2, 28)
    ensures AddYears(Date(2024, 2, 29), 2) == Date(2026, 2, 28)
  {
  }
}
