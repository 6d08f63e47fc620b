# Driver status — a verified model

This project models the rules engine of a graduated-licensing status
calculator for new drivers. From a birth date, a licence date and a
reference date ("today"), the engine decides:

- whether the driver is still a **new driver**, which lasts two years from the licence date;
- whether they are a **young driver**, meaning under 24;
- whether they were **young when licensed**;
- which **accompaniment** mode applies: full for the first three months, night-only until six months, or none;
- whether a **passenger limit** of two applies, for a new driver under 21;
- the days remaining and the progress percentage of each period;
- the coarse wording bucket used to describe a remaining-day count.

The engine builds all of this into one status report.

Three supporting parts sit around the engine:

- the date-entry field converts between the stored `yyyy-mm-dd` value and the displayed `dd/mm/yyyy` text. It checks that a typed date exists in the calendar and applies a typing mask: it keeps digits and slashes, inserts the slashes and limits the text to ten characters;
- the reminder list of the notification hook. Scheduling replaces the entry of the same type in place or appends one. Cancelling removes every entry of a type. A query asks whether an enabled reminder of a type exists;
- the reminder button picks which period end a reminder targets. Full accompaniment comes first, then night accompaniment, then the new-driver period.

Modules, one per concern:

| module | file | contents |
|---|---|---|
| `Wrappers` | wrappers.dfy | `Option` |
| `Calendar` | calendar.dfy | Gregorian dates, day numbers, and the date helpers the engine relies on (`isBefore`, `differenceInDays`, `differenceInYears`, `addMonths`, `addYears`), written as explicit definitions |
| `Constants` | constants.dfy | the policy constants |
| `Types` | types.dfy | the status report and the accompaniment union |
| `Calculations` | calculations.dfy | the rule evaluators, the report and the formatter |
| `Scenarios` | scenarios.dfy | worked examples on fixed dates |
| `JsStrings` | js_strings.dfy | `split`, `slice`, `padStart`, `Number()` on digit strings, the regular-expression filters |
| `DateInput` | date_input.dfy | the date-entry conversions, the validity check, the typing mask and the blur handler |
| `Notification` | notification.dfy | the reminder list, as class `ReminderList` whose `reminders` field the operations update |
| `ReminderButton` | reminder_button.dfy | the reminder priority rule and the render guard |

The reference date is an explicit parameter everywhere, and the date helpers
work on whole dates. The live clock carries a time of day, and
`differenceInDays` truncates partial days. So on a given day the real
application can show one day fewer remaining than this model does
(src/utils/calculations.ts:78, from an end date at midnight back to the
current moment). The progress values are unaffected: the elapsed days run
from a midnight forward to the current moment and truncate to the same
whole-day count, and the interval length runs between two midnights.

## Model

| member | source | states |
|---|---|---|
| Calendar.DifferenceInDays | src/utils/calculations.ts:77-80 | the signed day count is positive exactly when the first date is later, negative exactly when it is earlier, and zero exactly on the same date |
| Calendar.BeforeIffDayNumber | src/utils/calculations.ts:24-27 | strict calendar order (`isBefore`) coincides with the order of day numbers |
| Calendar.DayNumberNextDay | src/utils/calculations.ts:77-80 | day numbers count days: the calendar day after a date has the next day number |
| Calendar.DifferenceInDaysNextDay | src/utils/calculations.ts:77-80 | moving the later date on by one calendar day adds exactly one to the day difference, and a date is one day before the next |
| Calendar.DayNumberInjective | src/utils/calculations.ts:77-80 | two dates have the same day number exactly when they are the same date |
| Calendar.AddMonths | src/utils/calculations.ts:47-48 | the result lies exactly n months later; it keeps the day of the month when that month has it, and otherwise takes the month's last day |
| Calendar.AddYears | src/utils/calculations.ts:25 | same month n years later, same day, except that Feb 29 becomes Feb 28 in a non-leap target year |
| Calendar.AddMonthsOrder | src/utils/calculations.ts:47-48 | adding more months always gives a strictly later date |
| Calendar.AddZeroMonths | src/utils/calculations.ts:47-48 | adding zero months gives the same date |
| Calendar.DifferenceInYears | src/utils/calculations.ts:20-22 | non-negative when the reference is not earlier; at least k whole years have passed exactly when the k-th anniversary has been reached |
| Calendar.DifferenceInYearsAntisymmetric | src/utils/calculations.ts:20-22 | swapping the two dates negates the year count |
| Calendar.DifferenceInYearsMonotone | src/utils/calculations.ts:20-22 | a later reference date never gives a smaller age |
| Calculations.NewDriverEndDate | src/utils/calculations.ts:25 | the new-driver end is strictly after the licence date, two years later in the same month |
| Calculations.FullAccompanimentEndDate | src/utils/calculations.ts:47 | the full-accompaniment end is strictly after the licence date, three months later |
| Calculations.NightAccompanimentEndDate | src/utils/calculations.ts:48 | the night-accompaniment end is six months after the licence date and strictly after the full-accompaniment end |
| Calculations.CalculateAge | src/utils/calculations.ts:20-22 | the age is the whole-year difference from the birth date, never negative once the birth date has been reached |
| Calculations.IsNewDriver | src/utils/calculations.ts:24-27 | new exactly while the reference day is strictly before the two-year end; no longer new on the end date itself |
| Calculations.IsYoungDriver | src/utils/calculations.ts:29-31 | young exactly while the age is under 24, that is, before the 24th birthday |
| Calculations.WasYoungWhenLicensed | src/utils/calculations.ts:33-35 | young at licensing exactly when the licence date is before the 24th birthday |
| Calculations.GetAccompanimentStatus | src/utils/calculations.ts:37-59 | none when licensed at 24 or older; otherwise full iff before licence + 3 months, night iff from then until before licence + 6 months, none iff on or after licence + 6 months |
| Calculations.AccompanimentOnlyAdvances | src/utils/calculations.ts:47-58 | as the reference date advances, the mode only moves from full to night to none |
| Calculations.Exemption | src/utils/calculations.ts:43-45 | licensed at 24 or older means no accompaniment on every reference date |
| Calculations.GetPassengerLimit | src/utils/calculations.ts:61-75 | a limit exists iff the driver is new and under 21; the limit is then 2, and never 0 |
| Calculations.GetDaysRemaining | src/utils/calculations.ts:77-80 | never negative; positive exactly while the end is ahead, and then equal to the day difference |
| Calculations.DaysRemainingStep | src/utils/calculations.ts:77-80 | a later reference date never raises the count, and lowers it by at most the days in between |
| Calculations.ClampPercent | src/utils/calculations.ts:93 | `Math.min(100, Math.max(0, x))`: values below 0 give 0, values above 100 give 100, values inside are unchanged |
| Calculations.GetProgressPercentage | src/utils/calculations.ts:82-94 | in [0, 100]; exactly 100 for an empty or inverted interval or once the end is reached; 0 up to the start; strictly between 0 and 100 inside the interval; for a non-empty interval the value is 100 · elapsed days / total days, clamped |
| Calculations.RatioBounds | src/utils/calculations.ts:92 | the raw percentage is at most 0 before the start, at least 100 from the end on, strictly inside (0, 100) in between |
| Calculations.ProgressMonotone | src/utils/calculations.ts:82-94 | progress never goes backwards as the reference date advances |
| Calculations.RatioMonotone | src/utils/calculations.ts:92 | the raw percentage grows with the elapsed days |
| Calculations.CalculateDriverStatus | src/utils/calculations.ts:96-150 | no report iff a date is missing or failed to parse; otherwise every field agrees with its rule: the age, flags, mode, passenger limit and end dates, the three day counts (days remaining to each end date) and the three progress values; the accompaniment end dates are present iff the driver was young at licensing; without them the day counts are 0 and the progress values are 100; `hasPassengerLimit` is exactly `passengerLimit != null`; night progress runs from licence + 3 months; flags, counts and progress values agree for each period |
| Calculations.EndDatesIgnoreReferenceDate | src/utils/calculations.ts:112-118 | the end dates and the young-at-licensing flag do not depend on the reference date |
| Calculations.RoundHalfUp | src/utils/calculations.ts:157-159 | `Math.round(num / den)`: the nearest integer, halves rounded up |
| Calculations.FormatDaysRemaining | src/utils/calculations.ts:152-160 | each count falls in exactly one bucket, tested in the source's order; "about k months" has k in 2..12 within 15 days of 30k; "about k years" has k ≥ 2 within half a year of 365k |
| Scenarios.YoungNewDriverAfterAccompaniment | src/utils/calculations.ts:96-150 | licensed at 18, a year and a half ago: new driver with the passenger limit, accompaniment over |
| Scenarios.LicensedAtThirtyFour | src/utils/calculations.ts:96-150 | licensed at 34: no accompaniment end dates, 0 days of accompaniment, no limit |
| Scenarios.FullAccompanimentPeriod | src/utils/calculations.ts:96-150 | licensed 2024-04-01 and seen on 2024-06-15: full accompaniment with 16 days left |
| Scenarios.NewDriverPeriodOver | src/utils/calculations.ts:96-150 | two and a half years after licensing: not new, 0 days left, progress 100 |
| Scenarios.MissingInput | src/utils/calculations.ts:100-102 | a missing birth date gives no report |
| Scenarios.FormatterExamples | src/utils/calculations.ts:152-160 | 0, 1, 45, 75 and 1000 days land in ended, one day, about a month, about 3 months and about 3 years |
| Scenarios.ClampExamples | src/utils/calculations.ts:47-48 | Jan 31 + 1 month is Feb 29 (leap year) or Feb 28; Feb 29 + 2 years is Feb 28 |
| JsStrings.Split | src/components/DateInput.tsx:16 | `split` gives at least one piece, one more than the separators, none containing the separator |
| JsStrings.JoinSplit | src/components/DateInput.tsx:23 | joining the pieces of a split with the separator gives back the string |
| JsStrings.SplitThree | src/components/DateInput.tsx:16 | a text of three separator-free fields splits into exactly those fields |
| JsStrings.Take | src/components/DateInput.tsx:63 | `slice(0, n)` is the prefix of length min(n, length) |
| JsStrings.Drop | src/components/DateInput.tsx:68 | `slice(n)` is what follows `slice(0, n)` |
| JsStrings.PadStart | src/components/DateInput.tsx:27 | `padStart` keeps the text as a suffix and fills the front with the pad character up to the target length |
| JsStrings.ParseNumber | src/components/DateInput.tsx:36 | `Number()` gives a value exactly for digit strings; a value of k digits without a leading zero lies in [10^(k-1), 10^k) |
| JsStrings.KeepDigitsAndSlashes | src/components/DateInput.tsx:58 | the filter leaves only digits and slashes, keeps every digit in order and every slash, and is the identity on text already made of digits and slashes |
| JsStrings.KeepDigitsAndSlashesConcat | src/components/DateInput.tsx:58 | the filter works character by character: it distributes over concatenation |
| JsStrings.Digits | src/components/DateInput.tsx:61 | removing the slashes leaves only digits, with each digit occurring as often as in the input |
| JsStrings.DigitsConcat | src/components/DateInput.tsx:61 | taking the digits commutes with concatenation |
| DateInput.IsoToDisplay | src/components/DateInput.tsx:14-18 | empty stays empty; `Y-M-D` becomes `D/M/Y` |
| DateInput.DisplayToIso | src/components/DateInput.tsx:21-28 | non-empty exactly for three non-empty slash-separated parts, and then `year-month-day` with month and day left-padded with '0' to two characters |
| DateInput.IsoDisplayRoundTrip | src/components/DateInput.tsx:14-28 | a stored `yyyy-mm-dd` value shown and read back is the same value |
| DateInput.DisplayIsoRoundTrip | src/components/DateInput.tsx:14-28 | a `dd/mm/yyyy` text read and shown again is the same text |
| DateInput.DisplayFields | src/components/DateInput.tsx:33-37 | fields exist exactly for three slash-separated numeric parts, and then the day, month and year are `Number()` of parts 0, 1 and 2 |
| DateInput.JsDateFields | src/components/DateInput.tsx:43-46 | `new Date(year, month, day)` reads back the same fields exactly when the day exists in that month |
| DateInput.IsValidDisplayDate | src/components/DateInput.tsx:31-47 | valid exactly for three numeric parts naming a real Gregorian day (leap years included) in the years 1900..2100 |
| DateInput.AutoSlashed | src/components/DateInput.tsx:60-75 | the slash-free mask is at most ten characters; it has a slash at position 2 from two digits on and at position 5 from four digits on, and no other; it keeps the first eight digits in order; it is `dd/mm/yyyy` once eight digits are typed |
| DateInput.HandleTextChange | src/components/DateInput.tsx:54-84 | the text keeps only digits and slashes and has at most ten characters; its digits are a prefix of the typed ones, all of them for up to eight digits typed without slashes; such typing gives the mask; with two or more slashes typed the filtered text is kept as typed, cut to ten characters; with one slash a second slash is put after two month digits once four digits are typed; a complete valid date of digits and slashes is kept unchanged and reported; the ISO value is reported iff the text is a ten-character valid date, and is then its conversion; otherwise the text is stored as partial input |
| DateInput.MaskedText | src/components/DateInput.tsx:55-75 | the filtered, slash-inserted and length-limited text, case by case: slash-free typing gives the mask, one slash typed gets a second after the month digits, two or more are left as typed, and a complete valid date is unchanged |
| DateInput.HandleBlur | src/components/DateInput.tsx:86-91 | on blur a value is reported exactly for a ten-character valid date, and it is that text's conversion |
| DateInput.BlurKeepsStoredValue | src/components/DateInput.tsx:14-18 | leaving the field showing a stored date between 1900 and 2100 reports that same stored value |
| DateInput.ReportedValueMayNotBeIsoShaped | src/components/DateInput.tsx:78-79 | the valid ten-character text `01/1/02000` reports `02000-01-01`, which is not `yyyy-mm-dd` |
| Notification.ReminderInstant | src/hooks/useNotification.ts:50-51 | the reminder fires at 09:00, strictly inside the end date |
| Notification.EarlierDayIsBeforeReminder | src/hooks/useNotification.ts:53 | any moment of a day before the end date is earlier than the reminder instant |
| Notification.FindIndexOfType | src/hooks/useNotification.ts:58 | `findIndex`: the first entry of the type, or -1 exactly when there is none |
| Notification.Upserted | src/hooks/useNotification.ts:58-71 | with an entry of the type present, the first such entry is replaced in place and every other entry, later ones of the same type included, is unchanged, as is the length; without one, the reminder is appended at the end |
| Notification.WithoutType | src/hooks/useNotification.ts:87 | `filter`: no entry of the type remains, entries of other types keep their multiplicity, nothing new appears |
| Notification.HasEnabled | src/hooks/useNotification.ts:94 | `some`: true iff an enabled entry of the type exists |
| Notification.WithoutTypeAppend | src/hooks/useNotification.ts:87 | removal distributes over concatenation, so the remaining entries keep their order |
| Notification.WithoutTypeIdempotent | src/hooks/useNotification.ts:85-90 | cancelling twice is cancelling once |
| Notification.WithoutTypeKeepsOthers | src/hooks/useNotification.ts:85-97 | cancelling one type does not change whether another type has an enabled reminder |
| Notification.WithoutTypeIgnoresUpdate | src/hooks/useNotification.ts:66-67 | replacing an entry of a type is invisible once that type is removed |
| Notification.UpsertTouchesOnlyItsType | src/hooks/useNotification.ts:58-71 | scheduling changes nothing outside the entries of the scheduled type |
| Notification.UpsertIdempotent | src/hooks/useNotification.ts:58-71 | scheduling the same reminder twice is scheduling it once |
| Notification.UpsertPreservesUniqueKinds | src/hooks/useNotification.ts:58-71 | starting with at most one entry per type, scheduling keeps it so |
| Notification.CancelPreservesUniqueKinds | src/hooks/useNotification.ts:85-90 | starting with at most one entry per type, cancelling keeps it so |
| Notification.ReminderList.constructor | src/hooks/useNotification.ts:12 | the list starts empty |
| Notification.ReminderList.ScheduleReminder | src/hooks/useNotification.ts:40-83 | succeeds iff permission is granted and 09:00 on the end date is strictly after now; on success the list is the upsert of an enabled reminder of that type; on refusal the list is unchanged; afterwards the type has an enabled reminder |
| Notification.ReminderList.CancelReminder | src/hooks/useNotification.ts:85-90 | the new list is the old one without the type, and the type has no reminder left |
| Notification.ReminderList.HasReminder | src/hooks/useNotification.ts:92-97 | true iff some stored entry has the type and is enabled |
| ReminderButton.GetActiveReminder | src/components/ReminderButton.tsx:18-41 | full with its end date when full and the date is present; else night likewise; else new-driver likewise; else none; the date offered is that period's end date |
| ReminderButton.ShouldRender | src/components/ReminderButton.tsx:43-47 | the button shows iff notifications are supported and a reminder is active |
| ReminderButton.ActiveReminderIffPeriodRunning | src/components/ReminderButton.tsx:18-41 | for a computed report, a reminder is offered iff accompaniment is required or the driver is new |
| ReminderButton.AccompanimentTakesPriority | src/components/ReminderButton.tsx:19-39 | a running accompaniment period is offered ahead of the new-driver period |
| ReminderButton.ActiveReminderInFuture | src/components/ReminderButton.tsx:18-41 | for a computed report, the offered end date is after the reference date |
| ReminderButton.OfferedReminderCanBeScheduled | src/components/ReminderButton.tsx:58 | with permission, scheduling the offered reminder at any moment of the reference day passes the date guard |

## Left out

- `formatDate`: locale formatting through `toLocaleDateString('he-IL')` is a foreign call.
- The Hebrew wording of `formatDaysRemaining` and of the labels: the formatter returns a bucket (`RemainingText`) with its number.
- The clock: every `new Date()` becomes a parameter, `today` for the engine and `now` (a millisecond timestamp) for scheduling.
- Time of day: whole dates are used, so the model does not capture the truncation by which the real application can show one day fewer remaining.
- Calculations.CalculateDriverStatus: the agreement between each flag and its day count (`isNewDriver` iff `daysRemainingNewDriver > 0`, and the matching clauses for full and night accompaniment) holds for whole dates only. With the live clock, on the day before each end date the flag is still set while the count is already 0 and the formatter says "ended".
- `parseISO` and `isValid`: the engine receives the already-parsed dates as `Option` values, with `None` for a date that failed to parse.
- The internals of the date library are not part of this model; its helpers are the explicit definitions in `Calendar`.
- `licenseType` in the input record: the engine never reads it.
- `requestPermission`, the `Notification` constructor calls, `alert`, and the `checkReminders` timer with `setInterval` and `clearInterval`: browser I/O and timers. The permission outcome is a parameter of `ScheduleReminder`.
- `useLocalStorage` persistence: the reminder list is a field of `ReminderList`.
- `Notification.ReminderData`: the stored instant is a local millisecond timestamp rather than the `toISOString` text, so time zones are not modelled.
- `handleClick` and the icon, label and class-name choices of the reminder button: asynchronous UI glue.
- `showPicker`, the hidden native date input and the DOM write of `dataset.partial` in the date-entry field. The last becomes the `StorePartial` effect.
- `NIGHT_START_HOUR`, `NIGHT_END_HOUR`, `LICENSE_TYPES`, `STORAGE_KEY` and `LABELS`: the modelled functions do not use them.
- Floating point: progress is a `real` and `Math.round` is integer arithmetic, so IEEE rounding is not modelled.
- JsStrings.ParseNumber: `Number()` is modelled for digit strings only. Whitespace, signs, decimal points, exponents and hexadecimal forms all become "not a number" here. The texts `handleTextChange` checks hold only digits and slashes, so there the restriction makes no difference.
- DateInput.IsValidDisplayDate: because of the restriction above, a part such as `" 1"`, `"+1"` or `"1.0"`, which `Number()` reads as 1, makes the text invalid here, while the source accepts it.
- DateInput.HandleBlur: `handleBlur` passes the unfiltered field text (src/components/DateInput.tsx:87-88), so a text such as `" 1/01/2000"` is reported by the source and not by this model.
- The page components (dashboard, cards, progress bars, forms, dialogs, share and accessibility menus), the theme hook, the `useMemo` wrapper and the build configuration are not part of this model.
