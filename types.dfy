/** The record the status engine returns. */
module Types {
  import opened Wrappers
  import opened Calendar

  /** Which escort supervision is currently required. */
  datatype AccompanimentStatus = Full | Night | NotRequired

  /** A driver's status on one reference date; `None` stands for the source's `null`. */
  datatype DriverStatus = DriverStatus(
    isNewDriver: bool,
    isYoungDriver: bool,
    accompanimentStatus: AccompanimentStatus,
    hasPassengerLimit: bool,
    passengerLimit: Option<int>,
    age: int,
    newDriverEndDate: Option<CalendarDate>,
    fullAccompanimentEndDate: Option<CalendarDate>,
    nightAccompanimentEndDate: Option<CalendarDate>,
    daysRemainingNewDriver: int,
    daysRemainingFullAccompaniment: int,
    daysRemainingNightAccompaniment: int,
    newDriverProgress: real,
    fullAccompanimentProgress: real,
    nightAccompanimentProgress: real,
    wasYoungWhenLicensed: bool
  )
}
