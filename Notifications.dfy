/**
 * `NotificationService` (project/utils/notifications.ts): asking for permission, scheduling a
 * reminder at a task's due moment, and cancelling reminders. The notification library is an
 * object holding what the device keeps: the permission status, the number of permission dialogs
 * shown and the ordered list of scheduled reminders. The platform, the answer the user gives a
 * permission dialog, the current instant, the zone offset and whether a library call throws are
 * inputs. The library's opaque reminder identifiers are modelled as the decimal text of a serial
 * number the library counts up.
 */
module Notifications {
  import opened Wrappers
  import opened JsText
  import opened JsDate
  import opened DateUtils
  import opened TaskTypes

  /** `Platform.OS`; only `web` changes what the service does. */
  datatype Platform = Web | Ios | Android

  datatype PermissionStatus = Granted | Denied | Undetermined

  /**
   * One scheduled reminder: its identifier's serial number, its content and its trigger date,
   * which is the task moment as the code passes it, an Invalid Date included.
   */
  datatype Reminder = Reminder(serial: nat, title: string, body: string, taskId: string, trigger: DateValue)

  function ReminderId(r: Reminder): string {
    IntToString(r.serial)
  }

  // ---------------------------------------------------------------------------------------------
  // The decisions, as functions

  /** Whether `requestPermissions` resolves to true, and whether it shows a dialog. */
  datatype PermissionOutcome = PermissionOutcome(granted: bool, asked: bool)

  /**
   * `requestPermissions`: on web, true without asking; otherwise true when the existing status is
   * granted, else a dialog is shown and the answer decides.
   */
  function Permission(platform: Platform, existing: PermissionStatus, answer: PermissionStatus): (o: PermissionOutcome)
    ensures o.asked <==> platform != Web && existing != Granted
    ensures o.granted <==> platform == Web || existing == Granted || answer == Granted
  {
    if platform == Web then PermissionOutcome(true, false)
    else if existing == Granted then PermissionOutcome(true, false)
    else PermissionOutcome(answer == Granted, true)
  }

  /** The status the device reports after `requestPermissions`: the answer when a dialog was shown. */
  function StatusAfter(platform: Platform, existing: PermissionStatus, answer: PermissionStatus): PermissionStatus {
    if Permission(platform, existing, answer).asked then answer else existing
  }

  /** Asking twice shows at most one dialog: once granted, the second call does not ask. */
  lemma PermissionAsksOnce(platform: Platform, existing: PermissionStatus, answer: PermissionStatus, answer2: PermissionStatus)
    requires Permission(platform, existing, answer).granted
    ensures !Permission(platform, StatusAfter(platform, existing, answer), answer2).asked
    ensures Permission(platform, StatusAfter(platform, existing, answer), answer2).granted
  {
  }

  /**
   * The trigger of the reminder `scheduleTaskNotification` creates, or `None` when it returns null:
   * on web, without permission, when the task moment is at or before now, and when the library
   * throws. A NaN moment is not at or before now, so it reaches the library; whether the library
   * accepts an Invalid Date trigger or throws is the `fails` input, as for any other call.
   */
  function ScheduledTrigger(platform: Platform, granted: bool, moment: DateValue, now: Instant, fails: bool): (fire: Option<DateValue>)
    ensures fire.Some? <==> platform != Web && granted && !(moment.Valid? && moment.ms <= now) && !fails
    ensures fire.Some? ==> fire.value == moment
  {
    if platform == Web || !granted then None
    else if moment.Valid? && moment.ms <= now then None
    else if fails then None
    else Some(moment)
  }

  /** The moment of a task: its date and time keys read as local date-time. */
  function TaskMoment(task: Task, offset: int): DateValue {
    ParseDate(task.date + "T" + task.time, offset)
  }

  /**
   * A reminder is never scheduled for a task that is already due; a scheduled reminder whose
   * trigger is a valid date fires after now.
   */
  lemma NoReminderWhenDue(task: Task, platform: Platform, granted: bool, now: Instant, offset: int, fails: bool)
    ensures IsTaskDue(task.date, task.time, now, offset) ==> ScheduledTrigger(platform, granted, TaskMoment(task, offset), now, fails).None?
    ensures var fire := ScheduledTrigger(platform, granted, TaskMoment(task, offset), now, fails);
      && (fire.Some? ==> !IsTaskDue(task.date, task.time, now, offset))
      && (fire.Some? && fire.value.Valid? ==> fire.value.ms > now)
  {
  }

  /**
   * A task with well-formed keys, in a zone less than a day from UTC, has a valid moment: the
   * local wall-clock moment its keys name. So a reminder for it fires at that moment, after now.
   */
  lemma ReminderForKeys(task: Task, c: Civil, k: int, platform: Platform, granted: bool, now: Instant, offset: int, fails: bool)
    requires ParseDateKey(task.date) == Some(c) && ParseClock(task.time) == Some(k)
    requires -MsPerDay < offset < MsPerDay
    ensures TaskMoment(task, offset) == Valid(Utc(DaysFromCivil(c) * MsPerDay + k, offset))
    ensures var fire := ScheduledTrigger(platform, granted, TaskMoment(task, offset), now, fails);
      fire.Some? <==> platform != Web && granted && Utc(DaysFromCivil(c) * MsPerDay + k, offset) > now && !fails
  {
    ParseDueMoment(task.date, task.time, c, k, offset);
    DaysFromCivilBounds(c);
  }

  /** The content of the reminder for `task`, addressed to `userName`. */
  function ReminderFor(serial: nat, task: Task, userName: string, trigger: DateValue): (r: Reminder)
    ensures r.taskId == task.id && r.trigger == trigger && r.serial == serial
  {
    Reminder(serial, "Task Reminder for " + userName, "Don't forget: " + task.title, task.id, trigger)
  }

  /** The reminder's title ends with the user's name and its body ends with the task's title. */
  lemma ReminderText(serial: nat, task: Task, userName: string, trigger: DateValue)
    ensures var r := ReminderFor(serial, task, userName, trigger);
      && r.title[|r.title| - |userName|..] == userName && r.body[|r.body| - |task.title|..] == task.title
  {
  }

  /** The reminders left after cancelling `id`: every other one, in the same order. */
  function WithoutReminder(s: seq<Reminder>, id: string): (r: seq<Reminder>)
    ensures |r| <= |s|
  {
    if s == [] then []
    else if ReminderId(s[|s| - 1]) == id then WithoutReminder(s[..|s| - 1], id)
    else WithoutReminder(s[..|s| - 1], id) + [s[|s| - 1]]
  }

  /** Cancelling `id` removes exactly the reminders with that identifier. */
  lemma {:induction false} WithoutReminderContents(s: seq<Reminder>, id: string, x: Reminder)
    ensures x in WithoutReminder(s, id) <==> x in s && ReminderId(x) != id
    decreases |s|
  {
    if s != [] {
      WithoutReminderContents(s[..|s| - 1], id, x);
      assert s == s[..|s| - 1] + [s[|s| - 1]];
    }
  }

  /** Cancelling an identifier no reminder carries changes nothing. */
  lemma {:induction false} WithoutReminderUnknown(s: seq<Reminder>, id: string)
    requires forall i :: 0 <= i < |s| ==> ReminderId(s[i]) != id
    ensures WithoutReminder(s, id) == s
    decreases |s|
  {
    if s != [] {
      WithoutReminderUnknown(s[..|s| - 1], id);
      assert s == s[..|s| - 1] + [s[|s| - 1]];
    }
  }

  /** Cancelling twice is cancelling once. */
  lemma WithoutReminderIdempotent(s: seq<Reminder>, id: string)
    ensures WithoutReminder(WithoutReminder(s, id), id) == WithoutReminder(s, id)
  {
    var r := WithoutReminder(s, id);
    forall i | 0 <= i < |r| ensures ReminderId(r[i]) != id {
      WithoutReminderContents(s, id, r[i]);
    }
    WithoutReminderUnknown(r, id);
  }

  /** Serial numbers strictly increase along the list and stay below the next one to be issued. */
  predicate SerialsBelow(s: seq<Reminder>, issued: nat) {
    && (forall i :: 0 <= i < |s| ==> s[i].serial < issued)
    && (forall i, j :: 0 <= i < j < |s| ==> s[i].serial < s[j].serial)
  }

  /** Under that invariant, cancelling a reminder just scheduled gives back the reminders before it. */
  lemma CancelJustScheduled(s: seq<Reminder>, issued: nat, r: Reminder)
    requires SerialsBelow(s, issued) && r.serial == issued
    ensures WithoutReminder(s + [r], ReminderId(r)) == s
  {
    assert (s + [r])[..|s|] == s;
    forall i | 0 <= i < |s| ensures ReminderId(s[i]) != ReminderId(r) {
      if ReminderId(s[i]) == ReminderId(r) {
        IntToStringInjective(s[i].serial, r.serial);
      }
    }
    WithoutReminderUnknown(s, ReminderId(r));
  }

  /** Under that invariant, identifiers are distinct. */
  lemma DistinctIds(s: seq<Reminder>, issued: nat, i: int, j: int)
    requires SerialsBelow(s, issued) && 0 <= i < j < |s|
    ensures ReminderId(s[i]) != ReminderId(s[j])
  {
    if ReminderId(s[i]) == ReminderId(s[j]) {
      IntToStringInjective(s[i].serial, s[j].serial);
    }
  }

  // ---------------------------------------------------------------------------------------------
  // The service over the library's state

  class NotificationCenter {
    var status: PermissionStatus
    var dialogs: nat
    var scheduled: seq<Reminder>
    var issued: nat

    predicate Valid()
      reads this
    {
      SerialsBelow(scheduled, issued)
    }

    constructor (initial: PermissionStatus)
      ensures Valid() && status == initial && dialogs == 0 && scheduled == []
    {
      status := initial;
      dialogs := 0;
      scheduled := [];
      issued := 0;
    }

    /**
     * `requestPermissions`, where `answer` is what the user picks if a dialog is shown and
     * `queryFails` says whether the library's permission query throws, which rejects the call
     * (`None`) before any dialog or status change.
     */
    method RequestPermissions(platform: Platform, answer: PermissionStatus, queryFails: bool)
      returns (granted: Option<bool>)
      modifies this
      ensures platform != Web && queryFails ==> granted.None? && status == old(status) && dialogs == old(dialogs)
      ensures platform == Web || !queryFails ==>
        && granted == Some(Permission(platform, old(status), answer).granted)
        && status == StatusAfter(platform, old(status), answer)
        && dialogs == old(dialogs) + (if Permission(platform, old(status), answer).asked then 1 else 0)
      ensures scheduled == old(scheduled) && issued == old(issued)
    {
      if platform == Web {
        return Some(true);
      }
      if queryFails {
        return None;
      }
      var existing := status;
      var final := existing;
      if existing != Granted {
        dialogs := dialogs + 1;
        status := answer;
        final := status;
      }
      granted := Some(final == Granted);
    }

    /**
     * `scheduleTaskNotification`: on success the new reminder is appended and its identifier
     * returned; otherwise null and no reminder is added. The permission request inside it may
     * still show a dialog; when its query throws (`permissionFails`), the catch returns null and
     * nothing changes.
     */
    method ScheduleTaskNotification(task: Task, userName: string, platform: Platform, answer: PermissionStatus,
                                    permissionFails: bool, now: Instant, offset: int, fails: bool)
      returns (id: Option<string>)
      requires Valid()
      modifies this
      ensures Valid()
      ensures var granted := !permissionFails && Permission(platform, old(status), answer).granted;
        var fire := ScheduledTrigger(platform, granted, TaskMoment(task, offset), now, fails);
        && (fire.None? ==> id.None? && scheduled == old(scheduled) && issued == old(issued))
        && (fire.Some? ==> var r := ReminderFor(old(issued), task, userName, fire.value);
              id == Some(ReminderId(r)) && scheduled == old(scheduled) + [r] && issued == old(issued) + 1)
      ensures platform == Web || permissionFails ==> status == old(status) && dialogs == old(dialogs)
      ensures platform != Web && !permissionFails ==> status == StatusAfter(platform, old(status), answer)
      ensures platform != Web && !permissionFails ==>
        dialogs == old(dialogs) + (if Permission(platform, old(status), answer).asked then 1 else 0)
    {
      if platform == Web {
        return None;
      }
      var granted := RequestPermissions(platform, answer, permissionFails);
      if granted != Some(true) {
        return None;
      }
      var moment := TaskMoment(task, offset);
      if moment.Valid? && moment.ms <= now {
        return None;
      }
      if fails {
        return None;
      }
      var r := ReminderFor(issued, task, userName, moment);
      scheduled := scheduled + [r];
      issued := issued + 1;
      id := Some(ReminderId(r));
    }

    /** `cancelTaskNotification`: a no-op on web or when the library throws, which is not passed on. */
    method CancelTaskNotification(id: string, platform: Platform, fails: bool)
      requires Valid()
      modifies this
      ensures Valid()
      ensures scheduled == if platform == Web || fails then old(scheduled) else WithoutReminder(old(scheduled), id)
      ensures status == old(status) && dialogs == old(dialogs) && issued == old(issued)
    {
      if platform == Web {
        return;
      }
      if !fails {
        var kept := WithoutReminder(scheduled, id);
        KeptSerials(scheduled, issued, id);
        scheduled := kept;
      }
    }

    /** `cancelAllNotifications`: every reminder goes, except on web or when the library throws. */
    method CancelAllNotifications(platform: Platform, fails: bool)
      requires Valid()
      modifies this
      ensures Valid()
      ensures scheduled == if platform == Web || fails then old(scheduled) else []
      ensures status == old(status) && dialogs == old(dialogs) && issued == old(issued)
    {
      if platform == Web {
        return;
      }
      if !fails {
        scheduled := [];
      }
    }
  }

  /** Cancelling keeps the serial-number invariant. */
  lemma {:induction false} KeptSerials(s: seq<Reminder>, issued: nat, id: string)
    requires SerialsBelow(s, issued)
    ensures SerialsBelow(WithoutReminder(s, id), issued)
    decreases |s|
  {
    if s != [] {
      var init := s[..|s| - 1];
      KeptSerials(init, issued, id);
      var r := WithoutReminder(init, id);
      forall i | 0 <= i < |r| ensures r[i].serial < s[|s| - 1].serial {
        WithoutReminderContents(init, id, r[i]);
      }
    }
  }
}
