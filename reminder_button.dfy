/**
 * The reminder button's choice of which period end a reminder targets:
 * full accompaniment, then night accompaniment, then the new-driver period.
 */
module ReminderButton {
  import opened Wrappers
  import opened Calendar
  import opened Types
  import opened Calculations
  import opened Notification

  /** The reminder the button offers: its type and the end date it fires on. */
  datatype ActiveReminder = ActiveReminder(kind: ReminderType, date: CalendarDate)

  /** The period that is running and has a known end date, by fixed priority. */
  function GetActiveReminder(status: DriverStatus): (r: Option<ActiveReminder>)
    ensures status.accompanimentStatus == Full && status.fullAccompanimentEndDate.Some? ==>
      r == Some(ActiveReminder(FullAccompaniment, status.fullAccompanimentEndDate.value))
    ensures r.Some? && r.value.kind == NightAccompaniment <==>
      !(status.accompanimentStatus == Full && status.fullAccompanimentEndDate.Some?)
      && status.accompanimentStatus == Night && status.nightAccompanimentEndDate.Some?
    ensures r.Some? && r.value.kind == NewDriver <==>
      !(status.accompanimentStatus == Full && status.fullAccompanimentEndDate.Some?)
      && !(status.accompanimentStatus == Night && status.nightAccompanimentEndDate.Some?)
      && status.isNewDriver && status.newDriverEndDate.Some?
    ensures r.Some? ==> Some(r.value.date) == match r.value.kind
                          case FullAccompaniment => status.fullAccompanimentEndDate
                          case NightAccompaniment => status.nightAccompanimentEndDate
                          case NewDriver => status.newDriverEndDate
    ensures r.None? <==>
      && !(status.accompanimentStatus == Full && status.fullAccompanimentEndDate.Some?)
      && !(status.accompanimentStatus == Night && status.nightAccompanimentEndDate.Some?)
      && !(status.isNewDriver && status.newDriverEndDate.Some?)
  {
    if status.accompanimentStatus == Full && status.fullAccompanimentEndDate.Some? then
      Some(ActiveReminder(FullAccompaniment, status.fullAccompanimentEndDate.value))
    else if status.accompanimentStatus == Night && status.nightAccompanimentEndDate.Some? then
      Some(ActiveReminder(NightAccompaniment, status.nightAccompanimentEndDate.value))
    else if status.isNewDriver && status.newDriverEndDate.Some? then
      Some(ActiveReminder(NewDriver, status.newDriverEndDate.value))
    else
      None
  }

  /** The button is shown only with notification support and an active reminder. */
  function ShouldRender(isSupported: bool, status: DriverStatus): (b: bool)
    ensures b <==> isSupported && GetActiveReminder(status).Some?
  {
    isSupported && GetActiveReminder(status).Some?
  }

  /** For a computed report, a reminder is offered exactly while some period is running. */
  lemma ActiveReminderIffPeriodRunning(birth: CalendarDate, licence: CalendarDate, today: CalendarDate)
    ensures var s := CalculateDriverStatus(Some(birth), Some(licence), today).value;
      GetActiveReminder(s).Some? <==> s.accompanimentStatus != NotRequired || s.isNewDriver
  {
  }

  /** A running accompaniment period is offered in preference to the new-driver period. */
  lemma AccompanimentTakesPriority(birth: CalendarDate, licence: CalendarDate, today: CalendarDate)
    ensures var s := CalculateDriverStatus(Some(birth), Some(licence), today).value;
      s.accompanimentStatus != NotRequired ==>
        GetActiveReminder(s).Some? && GetActiveReminder(s).value.kind != NewDriver
  {
  }

  /** The offered end date for a computed report is still ahead of the reference date. */
  lemma {:induction false} ActiveReminderInFuture(birth: CalendarDate, licence: CalendarDate, today: CalendarDate)
    ensures var s := CalculateDriverStatus(Some(birth), Some(licence), today).value;
      GetActiveReminder(s).Some? ==> IsBefore(today, GetActiveReminder(s).value.date)
  {
    var s := CalculateDriverStatus(Some(birth), Some(licence), today).value;
    if s.isNewDriver {
      BeforeIffDayNumber(today, NewDriverEndDate(licence));
    }
  }

  /**
   * With permission granted at any moment of the reference day, scheduling the
   * offered reminder succeeds: its 09:00 instant lies after that moment.
   */
  lemma OfferedReminderCanBeScheduled(
    birth: CalendarDate, licence: CalendarDate, today: CalendarDate, now: int)
    requires DayStart(today) <= now < DayStart(today) + MsPerDay
    ensures var s := CalculateDriverStatus(Some(birth), Some(licence), today).value;
      GetActiveReminder(s).Some? ==> now < ReminderInstant(GetActiveReminder(s).value.date)
  {
    var s := CalculateDriverStatus(Some(birth), Some(licence), today).value;
    ActiveReminderInFuture(birth, licence, today);
    if GetActiveReminder(s).Some? {
      EarlierDayIsBeforeReminder(GetActiveReminder(s).value.date, today, now);
    }
  }
}
