/**
 * What a task card shows about its task (components/TaskCard.tsx): the Overdue and Today tags,
 * the Completed badge and the displayed time. The card computes these afresh from the task, the
 * current instant `now` and the local zone `offset` each time it renders.
 */
module TaskCard {
  import opened Wrappers
  import opened JsText
  import opened JsDate
  import opened DateUtils
  import opened TaskTypes

  /** `isOverdue`: not completed and due. */
  predicate IsOverdue(task: Task, now: Instant, offset: int) {
    !task.completed && IsTaskDue(task.date, task.time, now, offset)
  }

  /** `isToday`: the task's date is today, whatever its completion. */
  predicate IsToday(task: Task, now: Instant, offset: int) {
    IsTaskToday(task.date, now, offset)
  }

  datatype Tag = OverdueTag | TodayTag

  /** What a card renders that depends on the task's state. */
  datatype CardView = CardView(tags: seq<Tag>, completedBadge: bool, timeText: string)

  /** The status row holds the Overdue tag when overdue, then the Today tag when today and not overdue. */
  function StatusTags(task: Task, now: Instant, offset: int): seq<Tag> {
    TagsFor(IsOverdue(task, now, offset), IsToday(task, now, offset))
  }

  /** The two conditional tags of the status row, given the two conditions. */
  function TagsFor(overdue: bool, today: bool): seq<Tag> {
    (if overdue then [OverdueTag] else []) + (if today && !overdue then [TodayTag] else [])
  }

  /** The three possible status rows. */
  lemma TagsForCases(overdue: bool, today: bool)
    ensures overdue ==> TagsFor(overdue, today) == [OverdueTag]
    ensures !overdue && today ==> TagsFor(overdue, today) == [TodayTag]
    ensures !overdue && !today ==> TagsFor(overdue, today) == []
  {
    if overdue {
      assert TagsFor(overdue, today) == [OverdueTag] + [];
    } else if today {
      assert TagsFor(overdue, today) == [] + [TodayTag];
    }
  }

  /** The view of a card. */
  function Card(task: Task, now: Instant, offset: int): (v: CardView)
    ensures v.completedBadge <==> task.completed
    ensures v.timeText == FormatDisplayTime(task.time)
  {
    CardView(StatusTags(task, now, offset), task.completed, FormatDisplayTime(task.time))
  }

  /** A completed task is never overdue. */
  lemma CompletedNeverOverdue(task: Task, now: Instant, offset: int)
    requires task.completed
    ensures !IsOverdue(task, now, offset)
  {
  }

  /** Completion plays no part in whether a task is today. */
  lemma TodayIgnoresCompletion(task: Task, done: bool, now: Instant, offset: int)
    ensures IsToday(task.(completed := done), now, offset) == IsToday(task, now, offset)
  {
  }

  /** The tags a card shows: Overdue exactly when overdue, Today exactly when today and not overdue, never both. */
  lemma StatusTagsSpec(task: Task, now: Instant, offset: int)
    ensures var tags := Card(task, now, offset).tags;
      && (OverdueTag in tags <==> IsOverdue(task, now, offset))
      && (TodayTag in tags <==> IsToday(task, now, offset) && !IsOverdue(task, now, offset))
      && |tags| <= 1
  {
    TagsForMembers(IsOverdue(task, now, offset), IsToday(task, now, offset));
  }

  /** Which tags the status row holds, given the two conditions. */
  lemma TagsForMembers(overdue: bool, today: bool)
    ensures OverdueTag in TagsFor(overdue, today) <==> overdue
    ensures TodayTag in TagsFor(overdue, today) <==> today && !overdue
    ensures |TagsFor(overdue, today)| <= 1
  {
    TagsForCases(overdue, today);
  }

  /** A completed task dated today shows the Today tag and the Completed badge. */
  lemma CompletedTodayCard(task: Task, now: Instant, offset: int)
    requires task.completed && IsToday(task, now, offset)
    ensures Card(task, now, offset).tags == [TodayTag]
    ensures Card(task, now, offset).completedBadge
  {
  }

  /** A pending task becomes overdue, and loses any Today tag, once its due moment passes. */
  lemma OverdueOnceDue(task: Task, now1: Instant, now2: Instant, offset: int)
    requires now1 <= now2 && IsOverdue(task, now1, offset)
    ensures IsOverdue(task, now2, offset)
    ensures Card(task, now2, offset).tags == [OverdueTag]
  {
    IsTaskDueMonotone(task.date, task.time, now1, now2, offset);
  }

  /**
   * A pending task with well-formed keys, in a zone at or ahead of UTC: on the local date it
   * names and before its due moment it shows Today; from its due moment on it shows Overdue.
   */
  lemma PendingTaskTags(task: Task, c: Civil, k: int, now: Instant, offset: int)
    requires ParseDateKey(task.date) == Some(c) && ParseClock(task.time) == Some(k) && !task.completed
    requires 0 <= offset < MsPerDay
    ensures var due := Utc(DaysFromCivil(c) * MsPerDay + k, offset);
      && (LocalCivil(now, offset) == c && now < due ==> Card(task, now, offset).tags == [TodayTag])
      && (due <= now ==> Card(task, now, offset).tags == [OverdueTag])
  {
    IsTaskDueOfKeys(task.date, task.time, c, k, now, offset);
    IsTaskTodayEast(task.date, c, now, offset);
    StatusTagsCases(task, now, offset);
  }

  /** The three possible status rows. */
  lemma StatusTagsCases(task: Task, now: Instant, offset: int)
    ensures var tags := Card(task, now, offset).tags;
      && (IsOverdue(task, now, offset) ==> tags == [OverdueTag])
      && (!IsOverdue(task, now, offset) && IsToday(task, now, offset) ==> tags == [TodayTag])
      && (!IsOverdue(task, now, offset) && !IsToday(task, now, offset) ==> tags == [])
  {
    TagsForCases(IsOverdue(task, now, offset), IsToday(task, now, offset));
  }
}
