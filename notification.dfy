/**
 * The reminder list of the notification hook: schedule (upsert by type),
 * cancel (remove every entry of a type) and the "enabled reminder exists" query.
 * Browser permission, notifications, alerts, timers and storage are not modelled;
 * the permission outcome and the current time are parameters.
 */
module Notification {
  import opened Calendar

  /** The period a reminder is about. */
  datatype ReminderType = FullAccompaniment | NightAccompaniment | NewDriver

  /** A stored reminder; `at` is the local timestamp (milliseconds) it fires at. */
  datatype ReminderData = ReminderData(at: int, kind: ReminderType, enabled: bool)

  const MsPerDay: int := 86_400_000
  const MsPerHour: int := 3_600_000
  /** Reminders fire at 09:00 on the end date. */
  const ReminderHour: int := 9

  /** Local timestamp of midnight at the start of `d`. */
  function DayStart(d: CalendarDate): int {
    DayNumber(d) * MsPerDay
  }

  /** Local timestamp of 09:00 on `d`. */
  function ReminderInstant(d: CalendarDate): (t: int)
    ensures DayStart(d) < t < DayStart(d) + MsPerDay
  {
    DayStart(d) + ReminderHour * MsPerHour
  }

  /** Any instant on a day before `d` is earlier than the reminder on `d`. */
  lemma {:induction false} EarlierDayIsBeforeReminder(d: CalendarDate, today: CalendarDate, now: int)
    requires IsBefore(today, d)
    requires DayStart(today) <= now < DayStart(today) + MsPerDay
    ensures now < ReminderInstant(d)
  {
    BeforeIffDayNumber(today, d);
    assert DayNumber(today) + 1 <= DayNumber(d);
    assert (DayNumber(today) + 1) * MsPerDay <= DayNumber(d) * MsPerDay;
  }

  // ---------------------------------------------------------------------------
  // The list operations as functions

  /** `findIndex` on the type: the first entry of type `kind`, or -1. */
  function FindIndexOfType(rs: seq<ReminderData>, kind: ReminderType): (i: int)
    ensures -1 <= i < |rs|
    ensures i == -1 <==> forall j :: 0 <= j < |rs| ==> rs[j].kind != kind
    ensures i >= 0 ==> rs[i].kind == kind && forall j :: 0 <= j < i ==> rs[j].kind != kind
  {
    if |rs| == 0 then -1
    else if rs[0].kind == kind then 0
    else
      var i := FindIndexOfType(rs[1..], kind);
      if i < 0 then -1 else i + 1
  }

  /**
   * Store `r`: it replaces the first entry of its type in place, or is appended
   * when there is none. No other entry moves or changes, later entries of the
   * same type included.
   */
  function Upserted(rs: seq<ReminderData>, r: ReminderData): (rs': seq<ReminderData>)
    ensures (exists j :: 0 <= j < |rs| && rs[j].kind == r.kind) ==> |rs'| == |rs|
    ensures (forall j :: 0 <= j < |rs| ==> rs[j].kind != r.kind) ==> |rs'| == |rs| + 1 && rs'[|rs|] == r
    ensures forall j :: 0 <= j < |rs| && rs[j].kind != r.kind ==> rs'[j] == rs[j]
    ensures FindIndexOfType(rs', r.kind) >= 0 && rs'[FindIndexOfType(rs', r.kind)] == r
    ensures var i := FindIndexOfType(rs, r.kind);
      i >= 0 ==> |rs'| == |rs| && rs'[i] == r && forall j :: 0 <= j < |rs| && j != i ==> rs'[j] == rs[j]
    ensures FindIndexOfType(rs, r.kind) < 0 ==> rs' == rs + [r]
  {
    var i := FindIndexOfType(rs, r.kind);
    var rs' := if i >= 0 then rs[i := r] else rs + [r];
    var at := if i >= 0 then i else |rs|;
    assert rs'[at] == r && forall j :: 0 <= j < at ==> rs'[j].kind != r.kind;
    assert FindIndexOfType(rs', r.kind) == at;
    rs'
  }

  /** `filter` on the type: every entry of type `kind` removed, the others kept in order. */
  function WithoutType(rs: seq<ReminderData>, kind: ReminderType): (rs': seq<ReminderData>)
    ensures |rs'| <= |rs|
    ensures forall j :: 0 <= j < |rs'| ==> rs'[j].kind != kind
    ensures forall x: ReminderData :: x.kind != kind ==> multiset(rs')[x] == multiset(rs)[x]
    ensures forall x :: x in rs' ==> x in rs
  {
    if |rs| == 0 then []
    else
      var tail := WithoutType(rs[1..], kind);
      assert rs == [rs[0]] + rs[1..];
      if rs[0].kind == kind then tail else [rs[0]] + tail
  }

  /** `some`: is there an enabled entry of type `kind`? */
  function HasEnabled(rs: seq<ReminderData>, kind: ReminderType): (b: bool)
    ensures b <==> exists j :: 0 <= j < |rs| && rs[j].kind == kind && rs[j].enabled
  {
    if |rs| == 0 then false
    else
      var rest := HasEnabled(rs[1..], kind);
      assert forall j :: 1 <= j < |rs| ==> rs[j] == rs[1..][j - 1];
      (rs[0].kind == kind && rs[0].enabled) || rest
  }

  /** At most one entry per type. */
  predicate UniqueKinds(rs: seq<ReminderData>) {
    forall i, j :: 0 <= i < j < |rs| ==> rs[i].kind != rs[j].kind
  }

  // ---------------------------------------------------------------------------
  // Properties of the list operations

  /** Removal keeps the order of what remains: it distributes over concatenation. */
  lemma {:induction false} WithoutTypeAppend(a: seq<ReminderData>, b: seq<ReminderData>, kind: ReminderType)
    ensures WithoutType(a + b, kind) == WithoutType(a, kind) + WithoutType(b, kind)
  {
    if |a| > 0 {
      assert (a + b)[1..] == a[1..] + b;
      WithoutTypeAppend(a[1..], b, kind);
    } else {
      assert a + b == b;
    }
  }

  /** Cancelling twice is cancelling once. */
  lemma {:induction false} WithoutTypeIdempotent(rs: seq<ReminderData>, kind: ReminderType)
    ensures WithoutType(WithoutType(rs, kind), kind) == WithoutType(rs, kind)
  {
    if |rs| > 0 {
      WithoutTypeIdempotent(rs[1..], kind);
      var tail := WithoutType(rs[1..], kind);
      if rs[0].kind != kind {
        assert ([rs[0]] + tail)[1..] == tail;
      }
    }
  }

  /** Entries of another type are exactly the ones there were. */
  lemma {:induction false} WithoutTypeKeepsOthers(rs: seq<ReminderData>, kind: ReminderType, other: ReminderType)
    requires other != kind
    ensures HasEnabled(WithoutType(rs, kind), other) == HasEnabled(rs, other)
  {
    if |rs| > 0 {
      WithoutTypeKeepsOthers(rs[1..], kind, other);
      var tail := WithoutType(rs[1..], kind);
      if rs[0].kind != kind {
        assert ([rs[0]] + tail)[1..] == tail;
      }
    }
  }

  /** Replacing an entry of type `kind` does not change the list once that type is removed. */
  lemma {:induction false} WithoutTypeIgnoresUpdate(rs: seq<ReminderData>, i: int, r: ReminderData)
    requires 0 <= i < |rs| && rs[i].kind == r.kind
    ensures WithoutType(rs[i := r], r.kind) == WithoutType(rs, r.kind)
  {
    if i > 0 {
      assert rs[i := r][1..] == rs[1..][i - 1 := r];
      WithoutTypeIgnoresUpdate(rs[1..], i - 1, r);
    }
  }

  /** Scheduling touches only the entries of the scheduled type. */
  lemma UpsertTouchesOnlyItsType(rs: seq<ReminderData>, r: ReminderData)
    ensures WithoutType(Upserted(rs, r), r.kind) == WithoutType(rs, r.kind)
  {
    var i := FindIndexOfType(rs, r.kind);
    if i >= 0 {
      WithoutTypeIgnoresUpdate(rs, i, r);
    } else {
      WithoutTypeAppend(rs, [r], r.kind);
      assert [r][1..] == [];
    }
  }

  /** Scheduling the same reminder twice is scheduling it once. */
  lemma UpsertIdempotent(rs: seq<ReminderData>, r: ReminderData)
    ensures Upserted(Upserted(rs, r), r) == Upserted(rs, r)
  {
    var i := FindIndexOfType(rs, r.kind);
    var rs' := Upserted(rs, r);
    var i' := FindIndexOfType(rs', r.kind);
    if i >= 0 {
      assert rs'[i] == r;
      assert i' == i;
    } else {
      assert i' == |rs|;
    }
  }

  /** Starting from no two entries of a type, scheduling keeps it so. */
  lemma UpsertPreservesUniqueKinds(rs: seq<ReminderData>, r: ReminderData)
    requires UniqueKinds(rs)
    ensures UniqueKinds(Upserted(rs, r))
  {
  }

  /** With at most one entry per type, no later entry shares the first entry's type. */
  lemma HeadKindNotInTail(rs: seq<ReminderData>, x: ReminderData)
    requires UniqueKinds(rs) && |rs| > 0 && x in rs[1..]
    ensures x.kind != rs[0].kind
  {
    var k :| 0 <= k < |rs[1..]| && rs[1..][k] == x;
    assert rs[k + 1] == x;
  }

  /** Cancelling keeps at most one entry per type. */
  lemma {:induction false} CancelPreservesUniqueKinds(rs: seq<ReminderData>, kind: ReminderType)
    requires UniqueKinds(rs)
    ensures UniqueKinds(WithoutType(rs, kind))
  {
    if |rs| > 0 {
      CancelPreservesUniqueKinds(rs[1..], kind);
      var tail := WithoutType(rs[1..], kind);
      if rs[0].kind != kind {
        var rs' := [rs[0]] + tail;
        forall i, j | 0 <= i < j < |rs'| ensures rs'[i].kind != rs'[j].kind {
          if i == 0 {
            assert rs'[j] == tail[j - 1];
            HeadKindNotInTail(rs, tail[j - 1]);
          }
        }
      }
    }
  }

  // ---------------------------------------------------------------------------
  // The hook's state

  /** The persisted reminder list, updated in place by the hook's operations. */
  class ReminderList {
    var reminders: seq<ReminderData>

    constructor ()
      ensures reminders == []
    {
      reminders := [];
    }

    /**
     * Schedule a reminder at 09:00 on `endDate`. Refused, with the list left
     * as it was, without notification permission or when that moment is not
     * strictly after `now`.
     */
    method ScheduleReminder(endDate: CalendarDate, kind: ReminderType, permissionGranted: bool, now: int)
      returns (scheduled: bool)
      modifies this
      ensures scheduled <==> permissionGranted && now < ReminderInstant(endDate)
      ensures scheduled ==> reminders == Upserted(old(reminders), ReminderData(ReminderInstant(endDate), kind, true))
      ensures !scheduled ==> reminders == old(reminders)
      ensures scheduled ==> HasReminder(kind)
    {
      if !permissionGranted {
        return false;
      }
      var reminderAt := ReminderInstant(endDate);
      if reminderAt <= now {
        return false;
      }
      var existing := FindIndexOfType(reminders, kind);
      var newReminder := ReminderData(reminderAt, kind, true);
      if existing >= 0 {
        reminders := reminders[existing := newReminder];
      } else {
        reminders := reminders + [newReminder];
      }
      scheduled := true;
      assert reminders[if existing >= 0 then existing else |old(reminders)|] == newReminder;
    }

    /** Remove every reminder of type `kind`, keeping the others in order. */
    method CancelReminder(kind: ReminderType)
      modifies this
      ensures reminders == WithoutType(old(reminders), kind)
      ensures !HasReminder(kind)
    {
      reminders := WithoutType(reminders, kind);
    }

    /** Is there an enabled reminder of type `kind`? */
    function HasReminder(kind: ReminderType): (b: bool)
      reads this
      ensures b <==> exists j :: 0 <= j < |reminders| && reminders[j].kind == kind && reminders[j].enabled
    {
      HasEnabled(reminders, kind)
    }
  }
}
