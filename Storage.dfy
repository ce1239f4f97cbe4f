/**
 * `StorageService` (utils/storage.ts): the task collection and the profile, each kept whole
 * under one key of the device's key-value store and changed by read-modify-write.
 *
 * The store's JSON codec is taken to round-trip, so an entry holds the decoded value. Whether a
 * read or a write of the device store fails is an input of each operation; the clock is an
 * injected object whose readings never go back.
 */
module Storage {
  import opened Wrappers
  import opened JsText
  import opened JsDate
  import opened TaskTypes

  const TasksKey := "@tasks"
  const ProfileKey := "@profile"

  /** What a store key yields through `getItem` and `JSON.parse`: nothing, a value, or text that does not parse. */
  datatype Entry<T> = Missing | Holds(value: T) | Unparsable

  /** An error that `saveProfile` passes on to its caller. */
  datatype StoreError = WriteFailed

  /** The device clock read by `Date.now()` and `new Date()`. */
  class Clock {
    var last: Instant

    constructor (start: Instant)
      ensures last == start
    {
      last := start;
    }

    /** A reading no earlier than the previous one. */
    method Now() returns (t: Instant)
      modifies this
      ensures old(last) <= t && last == t
    {
      t :| last <= t;
      last := t;
    }
  }

  // ---------------------------------------------------------------------------------------------
  // The collection transforms

  /** The task `addTask` builds: the input's fields, then `id`, `createdAt` and `updatedAt` from three clock readings. */
  function NewTask(input: TaskData, idAt: Instant, createdAt: Instant, updatedAt: Instant): Task {
    Task(IntToString(idAt), input.title, input.description, input.date, input.time, input.completed,
         Timestamp(createdAt), Timestamp(updatedAt))
  }

  /** The new task carries every input field, and its id is the decimal text of the first reading. */
  lemma NewTaskFields(input: TaskData, idAt: Instant, createdAt: Instant, updatedAt: Instant)
    ensures var t := NewTask(input, idAt, createdAt, updatedAt);
      && TaskData(t.title, t.description, t.date, t.time, t.completed) == input
      && ParseInt(t.id) == Some(idAt as int)
      && t.createdAt == Timestamp(createdAt) && t.updatedAt == Timestamp(updatedAt)
      && (createdAt == updatedAt ==> t.createdAt == t.updatedAt)
  {
    ParseIntOfIntToString(idAt);
  }

  /** Tasks made at different milliseconds have different ids. */
  lemma NewTaskIdsDiffer(a: TaskData, b: TaskData, i: Instant, j: Instant, c: Instant, d: Instant, e: Instant, f: Instant)
    requires i != j
    ensures NewTask(a, i, c, d).id != NewTask(b, j, e, f).id
  {
    if IntToString(i) == IntToString(j) {
      IntToStringInjective(i, j);
    }
  }

  /**
   * `{ ...task, ...updates, updatedAt: stamp }`: present fields of the patch win, then `updatedAt` is
   * the stamp, the ISO text of a clock reading.
   */
  function Merge(t: Task, p: TaskPatch, stamp: string): Task {
    Task(
      if p.id.Some? then p.id.value else t.id,
      if p.title.Some? then p.title.value else t.title,
      if p.description.Some? then p.description.value else t.description,
      if p.date.Some? then p.date.value else t.date,
      if p.time.Some? then p.time.value else t.time,
      if p.completed.Some? then p.completed.value else t.completed,
      if p.createdAt.Some? then p.createdAt.value else t.createdAt,
      stamp)
  }

  /** `{ ...p, ...q }` of two patches: a field present in `q` wins over `p`. */
  function CombinePatches(p: TaskPatch, q: TaskPatch): TaskPatch {
    TaskPatch(
      if q.id.Some? then q.id else p.id,
      if q.title.Some? then q.title else p.title,
      if q.description.Some? then q.description else p.description,
      if q.date.Some? then q.date else p.date,
      if q.time.Some? then q.time else p.time,
      if q.completed.Some? then q.completed else p.completed,
      if q.createdAt.Some? then q.createdAt else p.createdAt,
      if q.updatedAt.Some? then q.updatedAt else p.updatedAt)
  }

  /** Two merges in a row are one merge of the combined patch, stamped with the later time. */
  lemma MergeTwice(t: Task, p: TaskPatch, q: TaskPatch, s1: string, s2: string)
    ensures Merge(Merge(t, p, s1), q, s2) == Merge(t, CombinePatches(p, q), s2)
  {
  }

  /** Merging the same patch twice at the same time is merging it once. */
  lemma MergeIdempotent(t: Task, p: TaskPatch, s: string)
    ensures Merge(Merge(t, p, s), p, s) == Merge(t, p, s)
  {
    MergeTwice(t, p, p, s, s);
  }

  /** The patch the edit screen sends: the five form fields, all present. */
  function FormPatch(d: TaskData): TaskPatch {
    TaskPatch(None, Some(d.title), Some(d.description), Some(d.date), Some(d.time), Some(d.completed), None, None)
  }

  /** Saving an edited form replaces the five form fields and keeps `id` and `createdAt`. */
  lemma MergeFormPatch(t: Task, d: TaskData, s: string)
    ensures var m := Merge(t, FormPatch(d), s);
      && m.id == t.id && m.createdAt == t.createdAt && m.updatedAt == s
      && TaskData(m.title, m.description, m.date, m.time, m.completed) == d
  {
  }

  /** What the `map` callback of `updateTask` makes of one task, given the clock reading it takes. */
  function UpdatedTask(t: Task, taskId: string, p: TaskPatch, stamp: string): Task {
    if t.id == taskId then Merge(t, p, stamp) else t
  }

  /**
   * The collection `updateTask` writes: each task with the given id merged with the patch and
   * stamped with its own stamp `stamps[i]`; every other task as it was.
   */
  function UpdatedTasks(tasks: seq<Task>, taskId: string, p: TaskPatch, stamps: seq<string>): (r: seq<Task>)
    requires |stamps| == |tasks|
    ensures |r| == |tasks|
  {
    if tasks == [] then []
    else
      var n := |tasks| - 1;
      UpdatedTasks(tasks[..n], taskId, p, stamps[..n]) + [UpdatedTask(tasks[n], taskId, p, stamps[n])]
  }

  /** The ISO texts of a sequence of clock readings. */
  function StampTexts(stamps: seq<Instant>): (r: seq<string>)
    ensures |r| == |stamps|
  {
    if stamps == [] then [] else StampTexts(stamps[..|stamps| - 1]) + [Timestamp(stamps[|stamps| - 1])]
  }

  /** `updateTask` keeps length and order: a task with another id stays as it was, one with the id is merged. */
  lemma {:induction false} UpdatedTasksAt(tasks: seq<Task>, taskId: string, p: TaskPatch, stamps: seq<string>, i: int)
    requires |stamps| == |tasks| && 0 <= i < |tasks|
    ensures tasks[i].id != taskId ==> UpdatedTasks(tasks, taskId, p, stamps)[i] == tasks[i]
    ensures tasks[i].id == taskId ==> UpdatedTasks(tasks, taskId, p, stamps)[i] == Merge(tasks[i], p, stamps[i])
    decreases |tasks|
  {
    var n := |tasks| - 1;
    if i < n {
      assert tasks[..n][i] == tasks[i] && stamps[..n][i] == stamps[i];
      UpdatedTasksAt(tasks[..n], taskId, p, stamps[..n], i);
    }
  }

  /** Updating an id that no task has leaves the collection as it was. */
  lemma {:induction false} UpdatedTasksUnknownId(tasks: seq<Task>, taskId: string, p: TaskPatch, stamps: seq<string>)
    requires |stamps| == |tasks|
    requires forall i :: 0 <= i < |tasks| ==> tasks[i].id != taskId
    ensures UpdatedTasks(tasks, taskId, p, stamps) == tasks
    decreases |tasks|
  {
    if tasks != [] {
      var n := |tasks| - 1;
      UpdatedTasksUnknownId(tasks[..n], taskId, p, stamps[..n]);
      assert tasks == tasks[..n] + [tasks[n]];
    }
  }

  /** `tasks.filter(task => task.id !== taskId)`. */
  function WithoutTask(tasks: seq<Task>, taskId: string): seq<Task> {
    if tasks == [] then []
    else if tasks[0].id == taskId then WithoutTask(tasks[1..], taskId)
    else [tasks[0]] + WithoutTask(tasks[1..], taskId)
  }

  /** Deleting keeps exactly the tasks with another id, each as often as before. */
  lemma {:induction false} WithoutTaskContents(tasks: seq<Task>, taskId: string)
    ensures forall t :: t in WithoutTask(tasks, taskId) ==> t.id != taskId
    ensures forall t: Task :: t.id != taskId ==> multiset(WithoutTask(tasks, taskId))[t] == multiset(tasks)[t]
  {
    if tasks != [] {
      WithoutTaskContents(tasks[1..], taskId);
      assert tasks == [tasks[0]] + tasks[1..];
    }
  }

  /** Deleting distributes over concatenation, so the tasks that remain keep their order. */
  lemma {:induction false} WithoutTaskAppend(a: seq<Task>, b: seq<Task>, taskId: string)
    ensures WithoutTask(a + b, taskId) == WithoutTask(a, taskId) + WithoutTask(b, taskId)
  {
    if a == [] {
      assert a + b == b;
    } else {
      assert (a + b)[0] == a[0] && (a + b)[1..] == a[1..] + b;
      WithoutTaskAppend(a[1..], b, taskId);
    }
  }

  /** Deleting an id that no task has changes nothing. */
  lemma {:induction false} WithoutTaskUnknownId(tasks: seq<Task>, taskId: string)
    requires forall i :: 0 <= i < |tasks| ==> tasks[i].id != taskId
    ensures WithoutTask(tasks, taskId) == tasks
  {
    if tasks != [] {
      WithoutTaskUnknownId(tasks[1..], taskId);
    }
  }

  /** Deleting twice is deleting once. */
  lemma WithoutTaskIdempotent(tasks: seq<Task>, taskId: string)
    ensures WithoutTask(WithoutTask(tasks, taskId), taskId) == WithoutTask(tasks, taskId)
  {
    var r := WithoutTask(tasks, taskId);
    WithoutTaskContents(tasks, taskId);
    assert forall i :: 0 <= i < |r| ==> r[i] in r;
    WithoutTaskUnknownId(r, taskId);
  }

  /** Adding a task with a fresh id and then deleting it gives the old collection back. */
  lemma AddThenDelete(tasks: seq<Task>, t: Task)
    requires forall i :: 0 <= i < |tasks| ==> tasks[i].id != t.id
    ensures WithoutTask(tasks + [t], t.id) == tasks
  {
    WithoutTaskAppend(tasks, [t], t.id);
    WithoutTaskUnknownId(tasks, t.id);
  }

  /** The three clock readings of `addTask`, in order, and the task built from them. */
  method StampTask(input: TaskData, clock: Clock)
    returns (newTask: Task, ghost idAt: Instant, ghost createdAt: Instant, ghost updatedAt: Instant)
    modifies clock
    ensures old(clock.last) <= idAt <= createdAt <= updatedAt == clock.last
    ensures newTask == NewTask(input, idAt, createdAt, updatedAt)
  {
    var id := clock.Now();
    var created := clock.Now();
    var updated := clock.Now();
    newTask := NewTask(input, id, created, updated);
    idAt, createdAt, updatedAt := id, created, updated;
  }

  /**
   * The clock readings of the `map` callback of `updateTask`: one fresh reading for each task with
   * the id, in order; a task with another id does not read the clock and is given the latest reading.
   */
  method ReadingsForMatches(tasks: seq<Task>, taskId: string, clock: Clock) returns (stamps: seq<Instant>)
    modifies clock
    ensures |stamps| == |tasks|
    ensures forall i :: 0 <= i < |stamps| ==> old(clock.last) <= stamps[i] <= clock.last
    ensures forall i, j :: 0 <= i < j < |stamps| ==> stamps[i] <= stamps[j]
  {
    stamps := [];
    var i := 0;
    while i < |tasks|
      invariant 0 <= i <= |tasks| && |stamps| == i
      invariant old(clock.last) <= clock.last
      invariant forall k :: 0 <= k < i ==> old(clock.last) <= stamps[k] <= clock.last
      invariant forall k, l :: 0 <= k < l < i ==> stamps[k] <= stamps[l]
    {
      var stamp := clock.last;
      if tasks[i].id == taskId {
        stamp := clock.Now();
      }
      stamps := stamps + [stamp];
      i := i + 1;
    }
  }

  // ---------------------------------------------------------------------------------------------
  // The service over the store

  /** The two entries of the device store that the service uses, under `TasksKey` and `ProfileKey`. */
  class StorageService {
    var tasksEntry: Entry<seq<Task>>
    var profileEntry: Entry<Profile>

    constructor (tasks: Entry<seq<Task>>, profile: Entry<Profile>)
      ensures tasksEntry == tasks && profileEntry == profile
    {
      tasksEntry := tasks;
      profileEntry := profile;
    }

    /** The collection that a successful read finds: none when the key is missing or does not parse. */
    function StoredTasks(): seq<Task>
      reads this
    {
      if tasksEntry.Holds? then tasksEntry.value else []
    }

    /** `getTasks`: never fails; a failed read, a missing key or unparsable text all give no tasks. */
    method GetTasks(readFails: bool) returns (tasks: seq<Task>)
      ensures readFails || !tasksEntry.Holds? ==> tasks == []
      ensures !readFails && tasksEntry.Holds? ==> tasks == tasksEntry.value
    {
      if readFails {
        tasks := [];
      } else {
        match tasksEntry
        case Holds(v) => tasks := v;
        case Missing => tasks := [];
        case Unparsable => tasks := [];
      }
    }

    /** `saveTasks`: replaces the whole collection; a failed write is swallowed and leaves the old entry. */
    method SaveTasks(tasks: seq<Task>, writeFails: bool)
      modifies this`tasksEntry
      ensures tasksEntry == if writeFails then old(tasksEntry) else Holds(tasks)
    {
      if !writeFails {
        tasksEntry := Holds(tasks);
      }
    }

    /**
     * `addTask`: the collection read plus the new task at its end. It never reports a failure:
     * after a failed write the store is unchanged, and after a failed read the new task replaces
     * everything that was stored.
     */
    method AddTask(input: TaskData, clock: Clock, readFails: bool, writeFails: bool)
      returns (newTask: Task, ghost idAt: Instant, ghost createdAt: Instant, ghost updatedAt: Instant)
      modifies this`tasksEntry, clock
      ensures old(clock.last) <= idAt <= createdAt <= updatedAt == clock.last
      ensures newTask == NewTask(input, idAt, createdAt, updatedAt)
      ensures tasksEntry == if writeFails then old(tasksEntry)
                            else Holds((if readFails then [] else old(StoredTasks())) + [newTask])
    {
      var tasks := GetTasks(readFails);
      newTask, idAt, createdAt, updatedAt := StampTask(input, clock);
      SaveTasks(tasks + [newTask], writeFails);
    }

    /**
     * `updateTask`: every task with the id is merged with the patch and stamped with a fresh clock
     * reading (one per match, in order); the others stay. A failed write is swallowed.
     */
    method UpdateTask(taskId: string, updates: TaskPatch, clock: Clock, readFails: bool, writeFails: bool)
      returns (ghost read: seq<Task>, ghost stamps: seq<Instant>)
      modifies this`tasksEntry, clock
      ensures read == if readFails then [] else old(StoredTasks())
      ensures |stamps| == |read|
      ensures forall i :: 0 <= i < |stamps| ==> old(clock.last) <= stamps[i] <= clock.last
      ensures forall i, j :: 0 <= i < j < |stamps| ==> stamps[i] <= stamps[j]
      ensures tasksEntry == if writeFails then old(tasksEntry) else Holds(UpdatedTasks(read, taskId, updates, StampTexts(stamps)))
    {
      var tasks := GetTasks(readFails);
      read := tasks;
      var readings := ReadingsForMatches(tasks, taskId, clock);
      stamps := readings;
      SaveTasks(UpdatedTasks(tasks, taskId, updates, StampTexts(readings)), writeFails);
    }

    /** `deleteTask`: keeps the tasks with another id, in order. A failed write is swallowed. */
    method DeleteTask(taskId: string, readFails: bool, writeFails: bool)
      modifies this`tasksEntry
      ensures tasksEntry == if writeFails then old(tasksEntry)
                            else Holds(WithoutTask(if readFails then [] else old(StoredTasks()), taskId))
    {
      var tasks := GetTasks(readFails);
      SaveTasks(WithoutTask(tasks, taskId), writeFails);
    }

    /** `getProfile`: the stored profile, or null when the key is missing, unparsable or the read fails. */
    method GetProfile(readFails: bool) returns (profile: Option<Profile>)
      ensures profile.Some? <==> !readFails && profileEntry.Holds?
      ensures profile.Some? ==> profile.value == profileEntry.value
    {
      if !readFails && profileEntry.Holds? {
        profile := Some(profileEntry.value);
      } else {
        profile := None;
      }
    }

    /** `saveProfile`: replaces the profile wholesale; unlike `saveTasks` it passes a failed write on. */
    method SaveProfile(profile: Profile, writeFails: bool) returns (r: Result<(), StoreError>)
      modifies this`profileEntry
      ensures r.Failure? <==> writeFails
      ensures profileEntry == if writeFails then old(profileEntry) else Holds(profile)
    {
      if writeFails {
        r := Failure(WriteFailed);
      } else {
        profileEntry := Holds(profile);
        r := Success(());
      }
    }

    /** `clearAll`: removes both keys; a failure is swallowed and leaves both entries. */
    method ClearAll(removeFails: bool)
      modifies this
      ensures tasksEntry == if removeFails then old(tasksEntry) else Missing
      ensures profileEntry == if removeFails then old(profileEntry) else Missing
    {
      if !removeFails {
        tasksEntry := Missing;
        profileEntry := Missing;
      }
    }
  }
}
