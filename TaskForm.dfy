/**
 * The task form (components/TaskForm.tsx): the fields it keeps, how it fills them when it opens
 * on an existing task or on a new one, the picker handlers, and the check and record building of
 * its save button. `now` is the instant `new Date()` reads when the form fills its fields and
 * `offset` the local zone's distance ahead of UTC.
 */
module TaskForm {
  import opened Wrappers
  import opened JsText
  import opened JsDate
  import opened DateUtils
  import opened TaskTypes

  /** Why saving did not produce a record: the title alert, or the RangeError `formatDate` throws. */
  datatype FormError = EmptyTitle | DateRangeError

  /** `Platform.OS` as far as the pickers care: iOS keeps a picker open after a choice. */
  datatype Platform = Ios | Other

  // ---------------------------------------------------------------------------------------------
  // Filling the fields

  /** The date field for an existing task: `new Date(task.date)`. */
  function LoadedDate(task: Task, offset: int): DateValue {
    ParseDate(task.date, offset)
  }

  /** `parseInt(minutes, 10)` where `minutes` may be `undefined`, which reads as NaN. */
  function ParseMinutes(time: string): Option<int> {
    match SecondPiece(time, ':')
    case Some(m) => ParseInt(m)
    case None => None
  }

  /** The time field for an existing task: today, at the task's hours and minutes, zero seconds. */
  function LoadedTime(task: Task, now: Instant, offset: int): DateValue {
    SetHours(Valid(now), ParseInt(BeforeFirst(task.time, ':')), ParseMinutes(task.time), 0, 0, offset)
  }

  /** The time field for a new task: the current hour plus one, at zero minutes. */
  function DefaultTime(now: Instant, offset: int): DateValue {
    SetHours(Valid(now), Some(HourFromTime(LocalTime(now, offset)) + 1), Some(0), 0, 0, offset)
  }

  /** For a new task the time field is the next whole local hour: after now, and at most an hour later. */
  lemma DefaultTimeIsNextHour(now: Instant, offset: int)
    requires now <= MaxTimeValue - MsPerHour
    ensures DefaultTime(now, offset).Valid?
    ensures var t := DefaultTime(now, offset).ms;
      && LocalTime(t, offset) == (LocalTime(now, offset) / MsPerHour + 1) * MsPerHour
      && now < t <= now + MsPerHour
  {
    var local := LocalTime(now, offset);
    var z := DayOf(local);
    var h := HourFromTime(local);
    assert local / MsPerHour == z * 24 + h;
    assert (h + 1) * MsPerHour + z * MsPerDay == (local / MsPerHour + 1) * MsPerHour;
  }

  /**
   * Opening an existing task whose time key is `HH:mm` sets the time field to those hours and
   * minutes of the same local day as now, with zero seconds and milliseconds.
   */
  lemma LoadedTimeOfKey(task: Task, h: nat, m: nat, now: Instant, offset: int)
    requires h < 24 && m < 60 && task.time == Padded(h, 2) + ":" + Padded(m, 2)
    requires -MaxTimeValue + MsPerDay <= now <= MaxTimeValue - MsPerDay
    ensures LoadedTime(task, now, offset).Valid?
    ensures var local := LocalTime(LoadedTime(task, now, offset).ms, offset);
      && DayOf(local) == DayOf(LocalTime(now, offset))
      && HourFromTime(local) == h && MinFromTime(local) == m && SecFromTime(local) == 0 && MsFromTime(local) == 0
  {
    TimeKeyParts(task.time, h, m);
    SetClockOfDay(now, h, m, offset);
  }

  /** `setHours(h, m, 0, 0)` with an hour and a minute in range keeps the local day and sets that clock. */
  lemma SetClockOfDay(x: Instant, h: int, m: int, offset: int)
    requires 0 <= h < 24 && 0 <= m < 60
    requires -MaxTimeValue + MsPerDay <= x <= MaxTimeValue - MsPerDay
    ensures SetHours(Valid(x), Some(h), Some(m), 0, 0, offset).Valid?
    ensures var local := LocalTime(SetHours(Valid(x), Some(h), Some(m), 0, 0, offset).ms, offset);
      && DayOf(local) == DayOf(LocalTime(x, offset))
      && HourFromTime(local) == h && MinFromTime(local) == m && SecFromTime(local) == 0 && MsFromTime(local) == 0
  {
    ClockOfDay(DayOf(LocalTime(x, offset)), h, m);
  }

  /** The hours and minutes `parseInt` reads from a time key `HH:mm`. */
  lemma TimeKeyParts(time: string, h: nat, m: nat)
    requires h < 24 && m < 60 && time == Padded(h, 2) + ":" + Padded(m, 2)
    ensures ParseInt(BeforeFirst(time, ':')) == Some(h) && ParseMinutes(time) == Some(m)
  {
    var hh, mm := Padded(h, 2), Padded(m, 2);
    PaddedFacts(h, 2);
    PaddedFacts(m, 2);
    NotInDigits(hh, ':');
    NotInDigits(mm, ':');
    SplitAtColon(hh, mm);
    ParseIntOfDigits(hh);
    ParseIntOfDigits(mm);
  }

  // ---------------------------------------------------------------------------------------------
  // Saving

  /**
   * `handleSave`: a title that trims to nothing is refused; otherwise the record holds the trimmed
   * title and description, the date and time keys of the two fields, and the edited task's
   * completion (false for a new task).
   */
  function SaveTask(title: string, description: string, date: DateValue, time: DateValue,
                    editing: Option<Task>, offset: int): (r: Result<TaskData, FormError>)
    ensures r == Failure(EmptyTitle) <==> Trim(title) == []
    ensures r == Failure(DateRangeError) <==> Trim(title) != [] && date.Invalid?
    ensures r.Success? ==>
      && r.value.title == Trim(title) && r.value.description == Trim(description)
      && r.value.date == FormatDate(date).value && r.value.time == FormatTime(time, offset)
      && r.value.completed == (editing.Some? && editing.value.completed)
  {
    if Trim(title) == [] then Failure(EmptyTitle)
    else
      match FormatDate(date)
      case Failure(_) => Failure(DateRangeError)
      case Success(key) =>
        Success(TaskData(Trim(title), Trim(description), key, FormatTime(time, offset),
                         editing.Some? && editing.value.completed))
  }

  /** The title check refuses exactly the titles made only of white space, the empty one included. */
  lemma SaveRefusesBlankTitles(title: string, description: string, date: DateValue, time: DateValue,
                               editing: Option<Task>, offset: int)
    ensures SaveTask(title, description, date, time, editing, offset) == Failure(EmptyTitle) <==> AllTrimmable(title)
  {
    TrimEmptyIff(title);
  }

  /** A saved title is non-empty and already trimmed; a saved date key reads back as that date's UTC midnight. */
  lemma SavedRecordIsNormal(title: string, description: string, t: int, time: DateValue,
                            editing: Option<Task>, offset: int)
    requires 0 <= CivilFromDays(DayOf(t)).year <= 9999
    requires SaveTask(title, description, Valid(t), time, editing, offset).Success?
    ensures var d := SaveTask(title, description, Valid(t), time, editing, offset).value;
      && d.title != [] && Trim(d.title) == d.title && Trim(d.description) == d.description
      && ParseDate(d.date, offset) == Valid(DayOf(t) * MsPerDay)
  {
    TrimIdempotent(title);
    TrimIdempotent(description);
    ParseDateOfFormatDate(t, offset);
  }

  /**
   * Opening an existing task with a trimmed non-empty title and well-formed keys and saving it
   * unchanged gives back the task's own fields: the form neither shifts the date nor the time.
   */
  lemma SaveUnchangedTask(task: Task, c: Civil, h: nat, m: nat, now: Instant, offset: int)
    requires Trim(task.title) == task.title != [] && Trim(task.description) == task.description
    requires ValidCivil(c) && 0 <= c.year <= 9999 && task.date == DateText(c)
    requires h < 24 && m < 60 && task.time == Padded(h, 2) + ":" + Padded(m, 2)
    requires -MaxTimeValue + MsPerDay <= now <= MaxTimeValue - MsPerDay
    ensures SaveTask(task.title, task.description, LoadedDate(task, offset), LoadedTime(task, now, offset), Some(task), offset)
         == Success(TaskData(task.title, task.description, task.date, task.time, task.completed))
  {
    LoadedDateOfKey(task, c, offset);
    SavedTimeOfKey(task, h, m, now, offset);
    SaveTaskOfKeys(task.title, task.description, LoadedDate(task, offset), LoadedTime(task, now, offset),
                   Some(task), offset, task.date, task.time);
  }

  /** The record saved from fields whose keys are known. */
  lemma SaveTaskOfKeys(title: string, description: string, date: DateValue, time: DateValue,
                       editing: Option<Task>, offset: int, dateKey: string, timeKey: string)
    requires Trim(title) != [] && FormatDate(date) == Success(dateKey) && FormatTime(time, offset) == timeKey
    ensures SaveTask(title, description, date, time, editing, offset)
         == Success(TaskData(Trim(title), Trim(description), dateKey, timeKey, editing.Some? && editing.value.completed))
  {
  }

  /** Opening a task whose time key is `HH:mm` and saving gives back the same time key. */
  lemma SavedTimeOfKey(task: Task, h: nat, m: nat, now: Instant, offset: int)
    requires h < 24 && m < 60 && task.time == Padded(h, 2) + ":" + Padded(m, 2)
    requires -MaxTimeValue + MsPerDay <= now <= MaxTimeValue - MsPerDay
    ensures LoadedTime(task, now, offset).Valid? && FormatTime(LoadedTime(task, now, offset), offset) == task.time
  {
    LoadedTimeOfKey(task, h, m, now, offset);
    var x := LoadedTime(task, now, offset).ms;
    FormatTimeOfInstant(x, offset);
  }

  /** Opening a task whose date key is `DateText(c)` sets the date field to the UTC midnight of `c`, whose key is the same text. */
  lemma LoadedDateOfKey(task: Task, c: Civil, offset: int)
    requires ValidCivil(c) && 0 <= c.year <= 9999 && task.date == DateText(c)
    ensures LoadedDate(task, offset) == Valid(DaysFromCivil(c) * MsPerDay)
    ensures FormatDate(LoadedDate(task, offset)) == Success(task.date)
  {
    DateTextShape(c);
    ParseDateKeyOfDateText(c);
    ParseDateOfDayKey(task.date, c, offset);
    CivilFromDaysOfDaysFromCivil(c);
    FormatDateOfMidnight(DaysFromCivil(c));
  }

  /** The date key of the UTC midnight of day `z`. */
  lemma FormatDateOfMidnight(z: int)
    requires 0 <= CivilFromDays(z).year <= 9999
    ensures FormatDate(Valid(z * MsPerDay)) == Success(DateText(CivilFromDays(z)))
  {
    var t := z * MsPerDay;
    assert DayOf(t) == z;
    FormatDateOfInstant(t);
  }

  // ---------------------------------------------------------------------------------------------
  // The form's state

  class TaskFormState {
    var title: string
    var description: string
    var date: DateValue
    var time: DateValue
    var showDatePicker: bool
    var showTimePicker: bool

    /** The initial state: empty texts, both fields at the moment the form is created, pickers closed. */
    constructor (now: Instant)
      ensures title == [] && description == [] && date == Valid(now) && time == Valid(now)
      ensures !showDatePicker && !showTimePicker
    {
      title := [];
      description := [];
      date := Valid(now);
      time := Valid(now);
      showDatePicker := false;
      showTimePicker := false;
    }

    /** The effect run when the form opens on `task` (an existing task) or on nothing (a new task). */
    method Load(task: Option<Task>, now: Instant, offset: int)
      modifies this
      ensures task.Some? ==>
        && title == task.value.title && description == task.value.description
        && date == LoadedDate(task.value, offset) && time == LoadedTime(task.value, now, offset)
      ensures task.None? ==>
        && title == old(title) && description == old(description) && date == old(date)
        && time == DefaultTime(now, offset)
      ensures showDatePicker == old(showDatePicker) && showTimePicker == old(showTimePicker)
    {
      if task.Some? {
        var t := task.value;
        title := t.title;
        description := t.description;
        date := LoadedDate(t, offset);
        time := LoadedTime(t, now, offset);
      } else {
        time := DefaultTime(now, offset);
      }
    }

    /** `onChangeText` of the title input. */
    method SetTitle(s: string)
      modifies this
      ensures title == s
      ensures description == old(description) && date == old(date) && time == old(time)
      ensures showDatePicker == old(showDatePicker) && showTimePicker == old(showTimePicker)
    {
      title := s;
    }

    /** `onChangeText` of the description input. */
    method SetDescription(s: string)
      modifies this
      ensures description == s
      ensures title == old(title) && date == old(date) && time == old(time)
      ensures showDatePicker == old(showDatePicker) && showTimePicker == old(showTimePicker)
    {
      description := s;
    }

    /** `onDateChange`: the picker stays open only on iOS; a dismissed picker leaves the date. */
    method OnDateChange(platform: Platform, selected: Option<DateValue>)
      modifies this
      ensures showDatePicker == (platform == Ios)
      ensures date == if selected.Some? then selected.value else old(date)
      ensures title == old(title) && description == old(description) && time == old(time)
      ensures showTimePicker == old(showTimePicker)
    {
      showDatePicker := platform == Ios;
      if selected.Some? {
        date := selected.value;
      }
    }

    /** `onTimeChange`: the picker stays open only on iOS; a dismissed picker leaves the time. */
    method OnTimeChange(platform: Platform, selected: Option<DateValue>)
      modifies this
      ensures showTimePicker == (platform == Ios)
      ensures time == if selected.Some? then selected.value else old(time)
      ensures title == old(title) && description == old(description) && date == old(date)
      ensures showDatePicker == old(showDatePicker)
    {
      showTimePicker := platform == Ios;
      if selected.Some? {
        time := selected.value;
      }
    }

    /** `handleSave` over the current fields; `editing` is the task the form was opened on. */
    method HandleSave(editing: Option<Task>, offset: int) returns (r: Result<TaskData, FormError>)
      ensures r == SaveTask(title, description, date, time, editing, offset)
    {
      if Trim(title) == [] {
        return Failure(EmptyTitle);
      }
      var key := FormatDate(date);
      if key.Failure? {
        return Failure(DateRangeError);
      }
      r := Success(TaskData(Trim(title), Trim(description), key.value, FormatTime(time, offset),
                            editing.Some? && editing.value.completed));
    }
  }
}
