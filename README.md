# A verified model of the task app's core

The app is a React Native to-do list. A user keeps tasks, each with a title, a description, a
date key `YYYY-MM-DD`, a time key `HH:mm` and a completion flag. The user also keeps a profile
and gets a local reminder when a task falls due. This project models the logic under the
screens and proves properties of it in Dafny:

- **Storage** (`StorageService`): the task collection and the profile are each one entry of the
  device's key-value store. Tasks are added, updated and deleted by reading and rewriting the
  whole collection.
- **DateUtils**: `formatDate`, `formatTime`, `formatDisplayTime`, `isTaskDue` and `isTaskToday`.
  They rest on a model of the JavaScript `Date` built-ins they call (ECMA-262, 2022 edition,
  section 21.4):
  - time values as integer milliseconds, with TimeClip;
  - the proleptic Gregorian calendar;
  - `toISOString` and `toTimeString`;
  - `setHours`;
  - the Date Time String Format parser (section 21.4.1.15). A date-only string is read as UTC
    midnight, and a date-time string without an offset is read as local time.
- **TaskCard**: the Overdue and Today tags, the Completed badge and the displayed time.
- **Notifications** (`NotificationService`): asking for permission, when a reminder is scheduled
  and what it says, and cancelling reminders.
- **TaskForm** and **ProfileForm**: the fields each form keeps, how they are filled, and what
  the save buttons check and build.

Some inputs are parameters or state objects rather than reads of the device:

- **The clock:** the current instant `now` is a parameter. In the store, the clock is a
  `Clock` object whose readings never go back.
- **The zone:** the local zone is a fixed `offset` in milliseconds ahead of UTC.
- **Storage:** the store's JSON codec is taken to round-trip, so a store entry holds a value,
  nothing, or unparsable text. Whether a device read or write throws is an input of each
  operation.
- **Notifications:** the library's state (permission status, dialogs shown, scheduled reminders)
  is a `NotificationCenter` object. The platform, the user's answer to a permission dialog and
  whether the library throws are inputs.

The JavaScript helpers appear as they behave, not as they are named:

- `trim()` uses the ECMAScript WhiteSpace and LineTerminator set.
- `parseInt` reads an optional sign and then a prefix of decimal digits.
- `%` keeps the sign of its left operand. In the display hour, a NaN or zero remainder is falsy.

Three behaviours of the code are easy to miss, and the model keeps them:

- **Persistence errors:** add, update and delete never report a failed store read or write,
  because `saveTasks` and `getTasks` catch every failure (utils/storage.ts:13-16, 22-24).
  - After a failed write, the stored collection is what it was.
  - After a failed read, `addTask` overwrites the stored collection with only the new task.
  - `saveProfile` does pass a failed write on (utils/storage.ts:86-89).
- **Ids:** ids are millisecond clock readings, so two tasks made in the same millisecond share
  one. The model proves only that tasks made at different milliseconds get different ids.
- **Today test:** `isTaskToday` compares local calendar fields, but the date key it parses is
  read as UTC midnight. In a zone behind UTC the two disagree: a task there is never today on
  the local date it names, and it shows as today on the local date before it.
  `DateUtils.IsTaskTodayWest` and `DateUtils.NotTodayOnItsDateWest` state this as the code's
  behaviour.

## Model

| member | source | states |
|---|---|---|
| DateUtils.FormatDate | utils/dateUtils.ts:2-4 | `formatDate` throws a RangeError exactly for an invalid date |
| DateUtils.FormatTime | utils/dateUtils.ts:6-8 | `formatTime` defined: the first five characters of the part of `toTimeString()` before its first space |
| DateUtils.FormatDisplayTime | utils/dateUtils.ts:20-26 | `formatDisplayTime` defined: `parseInt` of the piece before the first colon on the 12-hour clock, the second piece (or `undefined`), and AM or PM |
| DateUtils.Meridiem | utils/dateUtils.ts:23 | `hour >= 12 ? 'PM' : 'AM'`: PM exactly for a number of at least 12, AM for a smaller one or NaN |
| DateUtils.DisplayHour | utils/dateUtils.ts:24 | `hour % 12`, falling back to 12: the truncating remainder, or 12 when that is zero or NaN |
| DateUtils.Minutes | utils/dateUtils.ts:21-25 | the second piece of `split(':')`, or `undefined` when there is no colon |
| DateUtils.IsTaskDue | utils/dateUtils.ts:28-32 | `isTaskDue` defined: the moment `date` `T` `time` is a valid instant at or before now |
| DateUtils.IsTaskToday | utils/dateUtils.ts:34-42 | `isTaskToday` defined: the local day, month and year of now equal those of the parsed date, never for NaN |
| DateUtils.FormatDateOfInstant | utils/dateUtils.ts:3 | the date key of an instant is its UTC calendar date written `YYYY-MM-DD` (for years 0 to 9999) |
| DateUtils.ParseDateOfFormatDate | utils/dateUtils.ts:3 | a date key, read back with `new Date`, is the UTC midnight that starts the instant's UTC day |
| DateUtils.FormatTimeOfInstant | utils/dateUtils.ts:6-8 | the time key of an instant is its local clock `HH:mm` |
| DateUtils.ParseClockOfFormatTime | utils/dateUtils.ts:7 | a time key reads back as exactly the local hours and minutes of the instant |
| DateUtils.FormatTimeOfInvalid | utils/dateUtils.ts:7 | an invalid date does not throw in `formatTime`; it yields `Inval` |
| DateUtils.JsRem12 | utils/dateUtils.ts:24 | JavaScript `% 12`: a remainder congruent to the operand modulo 12, less than 12 in size, with the operand's sign |
| DateUtils.DisplayHourOfDayHour | utils/dateUtils.ts:22-24 | for every hour 0..23 the displayed hour is its 12-hour clock hour in 1..12; the suffix is PM exactly when the hour is at least 12 |
| DateUtils.DisplayHourInjective | utils/dateUtils.ts:23-24 | the displayed hour and suffix together determine the hour of the day |
| DateUtils.FormatDisplayTimeOfClock | utils/dateUtils.ts:20-26 | a time key `HH:mm` displays as the unpadded 12-hour hour, the minutes and AM or PM, so `00:mm` is `12:mm AM` and `12:mm` is `12:mm PM` |
| DateUtils.FormatDisplayTimeOfPieces | utils/dateUtils.ts:21-25 | for any text `h:m`, the hour is read from `h` and the minutes text is `m` copied verbatim |
| DateUtils.FormatDisplayTimeOfNaN | utils/dateUtils.ts:22-25 | an hour that is not a number displays as 12 AM |
| DateUtils.FormatDisplayTimeWithoutColon | utils/dateUtils.ts:21-25 | without a colon the whole text is the hour and the minutes read `undefined` |
| DateUtils.ParseDueMoment | utils/dateUtils.ts:30 | `date` `T` `time` of well-formed keys is the local wall-clock moment they name, as UTC, clipped to the time-value range |
| DateUtils.IsTaskDueOfKeys | utils/dateUtils.ts:28-32 | well-formed keys are due exactly when the moment they name is at or before now, equality included |
| DateUtils.NotDueWithBadDate | utils/dateUtils.ts:30-31 | a ten-character date that is not a real date gives NaN and the task is never due |
| DateUtils.NotDueWithBadKeys | utils/dateUtils.ts:30-31 | a task whose date key or time key is malformed, of any length (`9:00`, `25:00`, `2024-1-5`), gives NaN and is never due |
| DateUtils.NoDateKeyWithT | utils/dateUtils.ts:30 | a text containing `T` is no date key, so the `T` the code inserts cannot be taken into the date part |
| DateUtils.NoClockWithT | utils/dateUtils.ts:30 | a text containing `T` is no time key |
| DateUtils.IsTaskDueMonotone | utils/dateUtils.ts:31 | a task that is due stays due as now moves forward |
| DateUtils.LocalCivilOfMidnightEast | utils/dateUtils.ts:36-41 | at or ahead of UTC, the UTC midnight of day z falls on local day z |
| DateUtils.LocalCivilOfMidnightWest | utils/dateUtils.ts:36-41 | behind UTC, the UTC midnight of day z falls on local day z - 1 |
| DateUtils.IsTaskTodayOfKey | utils/dateUtils.ts:34-42 | a date key is today exactly when now is on the same local year, month and day as the UTC midnight the key names; the time of day plays no part |
| DateUtils.IsTaskTodayEast | utils/dateUtils.ts:34-42 | at or ahead of UTC, a date key is today exactly when it names today's local date |
| DateUtils.IsTaskTodayWest | utils/dateUtils.ts:34-42 | behind UTC, a date key is today exactly when today's local date is the day before the one it names |
| DateUtils.NotTodayOnItsDateWest | utils/dateUtils.ts:34-42 | behind UTC, a task is never today on the local date it names |
| DateUtils.NotTodayWhenInvalid | utils/dateUtils.ts:36-41 | an unreadable date has NaN fields and is never today |
| Storage.Clock.constructor | utils/storage.ts:32-34 | the clock starts at the given reading |
| Storage.NewTask | utils/storage.ts:30-35 | the task `addTask` builds: the input's fields, then the id and the two stamps from three clock readings |
| Storage.Merge | utils/storage.ts:51 | `{ ...task, ...updates, updatedAt }`: present patch fields win, then the stamp |
| Storage.WithoutTask | utils/storage.ts:64 | `filter(task => task.id !== taskId)` |
| Storage.UpdatedTask | utils/storage.ts:50-52 | the `map` callback: a task with the id is merged with the patch and the stamp, any other task is returned as it is |
| Storage.StampTexts | utils/storage.ts:51 | `new Date().toISOString()` for each clock reading the callback takes, in order |
| Storage.FormPatch | screens/EditTaskScreen.tsx:46 | the `taskData` the edit screen passes to `updateTask`: the five form fields, all present |
| Storage.StorageService.constructor | utils/storage.ts:4-5 | the service over the two store entries, as given |
| Storage.StorageService.StoredTasks | utils/storage.ts:11-12 | the parsed collection when the entry holds one, and `[]` when the key is missing |
| Storage.Clock.Now | utils/storage.ts:32-34 | a clock reading is no earlier than the previous one |
| Storage.NewTaskFields | utils/storage.ts:30-35 | the new task carries every input field; its id is the decimal text of the first clock reading (it reads back with `parseInt`); `createdAt` and `updatedAt` are the ISO texts of the later readings, set after the spread |
| Storage.NewTaskIdsDiffer | utils/storage.ts:32 | tasks made at different milliseconds get different ids |
| Storage.MergeTwice | utils/storage.ts:51 | two updates in a row equal one update with the combined patch, where the later patch's present fields win, stamped with the later time |
| Storage.MergeIdempotent | utils/storage.ts:51 | applying the same patch twice at the same time equals applying it once |
| Storage.MergeFormPatch | utils/storage.ts:51 | an update with the form's five fields replaces exactly those fields, keeps `id` and `createdAt`, and sets `updatedAt` to the new stamp |
| Storage.UpdatedTasks | utils/storage.ts:49-53 | `map` keeps the number of tasks |
| Storage.UpdatedTasksAt | utils/storage.ts:49-53 | position by position, a task with another id is unchanged and a task with the id is merged with the patch: present fields overwrite, absent ones stay, and `updatedAt` is that task's clock stamp even when the patch supplies one |
| Storage.UpdatedTasksUnknownId | utils/storage.ts:49-53 | updating an id that no task has leaves the collection unchanged |
| Storage.WithoutTaskContents | utils/storage.ts:64 | after `filter`, no task with the id remains, and every task with another id remains as often as before |
| Storage.WithoutTaskAppend | utils/storage.ts:64 | deleting distributes over concatenation, so the remaining tasks keep their order |
| Storage.WithoutTaskUnknownId | utils/storage.ts:64 | deleting an unknown id changes nothing |
| Storage.WithoutTaskIdempotent | utils/storage.ts:64 | deleting twice equals deleting once |
| Storage.AddThenDelete | utils/storage.ts:27-70 | adding a task whose id is new and then deleting that id gives back the old collection |
| Storage.StampTask | utils/storage.ts:30-35 | `addTask` reads the clock three times in order and builds the task from those readings |
| Storage.ReadingsForMatches | utils/storage.ts:49-51 | the `map` callback takes one reading per task; the readings never decrease and lie between the clock before and after |
| Storage.StorageService.GetTasks | utils/storage.ts:9-17 | `getTasks` never fails: a failed read, a missing key or unparsable text gives no tasks, and otherwise it gives the stored collection |
| Storage.StorageService.SaveTasks | utils/storage.ts:19-25 | `saveTasks` replaces the whole collection; a failed write is swallowed and leaves the old entry |
| Storage.StorageService.AddTask | utils/storage.ts:27-44 | the stored collection becomes the collection read with exactly the new task appended; a failed write leaves the store unchanged and reports no failure |
| Storage.StorageService.UpdateTask | utils/storage.ts:46-59 | the stored collection becomes the collection read with each matching task merged and stamped with its own fresh, ordered clock reading; a failed write is swallowed |
| Storage.StorageService.DeleteTask | utils/storage.ts:61-70 | the stored collection becomes the collection read, filtered to the tasks with another id; a failed write is swallowed |
| Storage.StorageService.GetProfile | utils/storage.ts:73-81 | the stored profile, or null exactly when the read fails, the key is missing or the text does not parse |
| Storage.StorageService.SaveProfile | utils/storage.ts:83-90 | the profile is replaced wholesale; a failed write is reported and leaves the old entry |
| Storage.StorageService.ClearAll | utils/storage.ts:93-99 | both keys are removed; a failure is swallowed and leaves both entries |
| Notifications.StatusAfter | project/utils/notifications.ts:20-26 | the status after `requestPermissions`: the dialog's answer when one is shown, else the existing status |
| Notifications.TaskMoment | project/utils/notifications.ts:43 | the task moment `new Date(date + "T" + time)` |
| Notifications.ReminderId | project/utils/notifications.ts:51-62 | the identifier `scheduleNotificationAsync` returns, the decimal text of the reminder's serial number |
| Notifications.NotificationCenter.constructor | project/utils/notifications.ts:14 | the library's initial state: the given status, no dialog shown, no reminder scheduled |
| Notifications.Permission | project/utils/notifications.ts:15-29 | a dialog is shown exactly when not on web and the existing status is not granted; the result is true exactly when on web, already granted, or the answer is granted |
| Notifications.PermissionAsksOnce | project/utils/notifications.ts:20-28 | after a granting call, a second call shows no dialog and is granted |
| Notifications.ScheduledTrigger | project/utils/notifications.ts:31-67 | a reminder is scheduled exactly when not on web, permission is granted, the task moment is not a valid instant at or before now (a NaN moment passes this gate, as `NaN <= now` is false) and the library does not throw; its trigger is the task moment, an Invalid Date included |
| Notifications.NoReminderWhenDue | project/utils/notifications.ts:43-49 | no reminder is scheduled for a task that is already due; a scheduled reminder with a valid trigger fires after now |
| Notifications.ReminderForKeys | project/utils/notifications.ts:43-49 | for well-formed keys the task moment is the valid local wall-clock moment they name, and a reminder is scheduled exactly when not on web, granted, that moment is after now and the library does not throw |
| Notifications.ReminderFor | project/utils/notifications.ts:51-60 | the reminder's data carries the task's id and its trigger is the task moment |
| Notifications.ReminderText | project/utils/notifications.ts:53-54 | the title ends with the user name and the body ends with the task title |
| Notifications.WithoutReminder | project/utils/notifications.ts:75 | cancelling never adds reminders |
| Notifications.WithoutReminderContents | project/utils/notifications.ts:75 | cancelling an identifier removes exactly the reminders with that identifier |
| Notifications.WithoutReminderUnknown | project/utils/notifications.ts:75 | cancelling an identifier no reminder has changes nothing |
| Notifications.WithoutReminderIdempotent | project/utils/notifications.ts:75 | cancelling twice equals cancelling once |
| Notifications.CancelJustScheduled | project/utils/notifications.ts:51-75 | cancelling the identifier just returned by scheduling gives back the reminders before it |
| Notifications.DistinctIds | project/utils/notifications.ts:51-62 | the scheduled reminders have distinct identifiers |
| Notifications.KeptSerials | project/utils/notifications.ts:75 | cancelling keeps the identifier invariant |
| Notifications.NotificationCenter.RequestPermissions | project/utils/notifications.ts:15-29 | when the permission query throws off web, the call rejects and nothing changes; otherwise the result and the new status are those of `Permission` and exactly one dialog is counted when one is shown; the scheduled reminders are untouched |
| Notifications.NotificationCenter.ScheduleTaskNotification | project/utils/notifications.ts:31-67 | null and nothing scheduled unless `ScheduledTrigger` fires, which it never does when the permission query throws (the catch at lines 63-66); otherwise the reminder is appended and its identifier returned; off web and without a permission failure the status and the dialog count change as `RequestPermissions` says, otherwise neither changes |
| Notifications.NotificationCenter.CancelTaskNotification | project/utils/notifications.ts:69-79 | on web or when the library throws nothing changes and no error escapes; otherwise the reminders with that identifier go |
| Notifications.NotificationCenter.CancelAllNotifications | project/utils/notifications.ts:81-91 | on web or when the library throws nothing changes and no error escapes; otherwise every reminder goes |
| TaskCard.IsOverdue | components/TaskCard.tsx:32 | `isOverdue`: not completed and due |
| TaskCard.IsToday | components/TaskCard.tsx:33 | `isToday`: the date key is today |
| TaskCard.TagsFor | components/TaskCard.tsx:43-52 | the status row for the two conditions: Overdue when overdue, then Today when today and not overdue |
| TaskCard.StatusTags | components/TaskCard.tsx:43-52 | the status row of a card: `TagsFor` of its overdue and today conditions |
| TaskCard.Card | components/TaskCard.tsx:32-93 | the Completed badge shows exactly when the task is completed; the time shown is `formatDisplayTime` of the time key |
| TaskCard.CompletedNeverOverdue | components/TaskCard.tsx:32 | a completed task is never overdue |
| TaskCard.TodayIgnoresCompletion | components/TaskCard.tsx:33 | whether a task is today does not depend on its completion |
| TaskCard.TagsForCases | components/TaskCard.tsx:43-52 | the status row is Overdue alone, Today alone or empty, by the two conditions |
| TaskCard.TagsForMembers | components/TaskCard.tsx:43-52 | the Overdue tag shows exactly when overdue; the Today tag exactly when today and not overdue; at most one tag |
| TaskCard.StatusTagsSpec | components/TaskCard.tsx:43-52 | on a card, Overdue shows exactly when the task is overdue and Today exactly when it is today and not overdue, so never both |
| TaskCard.StatusTagsCases | components/TaskCard.tsx:43-52 | the three possible status rows of a card |
| TaskCard.CompletedTodayCard | components/TaskCard.tsx:32-52 | a completed task dated today shows the Today tag and the Completed badge |
| TaskCard.OverdueOnceDue | components/TaskCard.tsx:32-47 | once overdue a pending task stays overdue and shows only the Overdue tag |
| TaskCard.PendingTaskTags | components/TaskCard.tsx:32-52 | at or ahead of UTC, a pending task shows Today on its own local date before its due moment and shows Overdue from the due moment on |
| TaskForm.LoadedDate | components/TaskForm.tsx:39 | the date field for an edited task: `new Date(task.date)` |
| TaskForm.LoadedTime | components/TaskForm.tsx:41-43 | the time field for an edited task: now with `setHours` of the parsed hours and minutes, zero seconds and milliseconds |
| TaskForm.ParseMinutes | components/TaskForm.tsx:41-43 | `parseInt(minutes, 10)` of the second piece, NaN when `minutes` is `undefined` |
| TaskForm.DefaultTime | components/TaskForm.tsx:47-48 | the time field for a new task: now with `setHours` of the current hour plus one and zero minutes |
| TaskForm.DefaultTimeIsNextHour | components/TaskForm.tsx:45-50 | for a new task the time field is the next whole local hour: after now and at most an hour later |
| TaskForm.LoadedTimeOfKey | components/TaskForm.tsx:41-43 | editing a task with time key `HH:mm` sets the time field to those hours and minutes on the local day of now, with zero seconds and milliseconds |
| TaskForm.SetClockOfDay | components/TaskForm.tsx:43 | `setHours(h, m, 0, 0)` with h and m in range keeps the local day and sets exactly that clock |
| TaskForm.TimeKeyParts | components/TaskForm.tsx:41-43 | `split(':')` and `parseInt` read the hours and minutes of a time key back |
| TaskForm.SaveTask | components/TaskForm.tsx:53-68 | saving is refused exactly when the title trims to nothing; an invalid date throws; otherwise the record has the trimmed title and description, the date key and time key of the fields, and the edited task's completion, which is false for a new task |
| TaskForm.SaveRefusesBlankTitles | components/TaskForm.tsx:54-57 | the title check refuses exactly the titles made only of white space |
| TaskForm.SavedRecordIsNormal | components/TaskForm.tsx:59-65 | a saved title is non-empty and trimmed, the description is trimmed, and the saved date key reads back as the UTC midnight of the date field's UTC day |
| TaskForm.SaveUnchangedTask | components/TaskForm.tsx:35-65 | opening a task with a trimmed title and well-formed keys and saving it unchanged gives back the task's own five fields |
| TaskForm.SaveTaskOfKeys | components/TaskForm.tsx:59-65 | the record saved from fields whose keys are known |
| TaskForm.SavedTimeOfKey | components/TaskForm.tsx:41-63 | the time key survives the round trip through the time field |
| TaskForm.LoadedDateOfKey | components/TaskForm.tsx:39 | the date key survives the round trip through `new Date` and `formatDate` |
| TaskForm.FormatDateOfMidnight | components/TaskForm.tsx:62 | the date key of the UTC midnight of a day is that day's `YYYY-MM-DD` |
| TaskForm.TaskFormState.constructor | components/TaskForm.tsx:26-31 | empty texts, both fields now, pickers closed |
| TaskForm.TaskFormState.Load | components/TaskForm.tsx:35-51 | editing fills title, description, date and time from the task; a new task only sets the default time |
| TaskForm.TaskFormState.SetTitle | components/TaskForm.tsx:96 | the title becomes the text and nothing else changes |
| TaskForm.TaskFormState.SetDescription | components/TaskForm.tsx:112 | the description becomes the text and nothing else changes |
| TaskForm.TaskFormState.OnDateChange | components/TaskForm.tsx:70-75 | the date picker stays open exactly on iOS; a selection replaces the date and a dismissal keeps it |
| TaskForm.TaskFormState.OnTimeChange | components/TaskForm.tsx:77-82 | the time picker stays open exactly on iOS; a selection replaces the time and a dismissal keeps it |
| TaskForm.TaskFormState.HandleSave | components/TaskForm.tsx:53-68 | the save button's result over the current fields is `SaveTask` of them |
| ProfileForm.SaveProfile | components/ProfileForm.tsx:39-52 | saving is refused exactly when a name trims to nothing; otherwise the profile holds the three trimmed texts |
| ProfileForm.SaveRefusesBlankNames | components/ProfileForm.tsx:40-43 | refused exactly when one of the names is only white space |
| ProfileForm.ImageUrlNeverBlocks | components/ProfileForm.tsx:40-48 | the image URL plays no part in whether the save goes ahead; an empty one is saved as empty |
| ProfileForm.SaveProfileIdempotent | components/ProfileForm.tsx:45-49 | a saved profile has non-empty trimmed names, and saving it again gives the same profile |
| ProfileForm.DisplayedImage | components/ProfileForm.tsx:71 | the picture is the typed URL when one is entered and the default one otherwise |
| ProfileForm.DisplaysDefaultIffEmpty | components/ProfileForm.tsx:54-71 | the default picture shows exactly when no URL is entered (unless the default URL itself is typed) |
| ProfileForm.ProfileFormState.constructor | components/ProfileForm.tsx:24-26 | three empty texts |
| ProfileForm.ProfileFormState.Load | components/ProfileForm.tsx:31-37 | a supplied profile fills all three fields; none leaves them |
| ProfileForm.ProfileFormState.SetFirstName | components/ProfileForm.tsx:89 | the first name becomes the text and nothing else changes |
| ProfileForm.ProfileFormState.SetLastName | components/ProfileForm.tsx:104 | the last name becomes the text and nothing else changes |
| ProfileForm.ProfileFormState.SetImageUrl | components/ProfileForm.tsx:119 | the image URL becomes the text and nothing else changes |
| ProfileForm.ProfileFormState.HandleSave | components/ProfileForm.tsx:39-52 | the save button's result over the current fields is `SaveProfile` of them |

## Left out

- `formatDisplayDate` and what it renders: it depends on the locale tables behind `toLocaleDateString`.
- Task statistics and sorting: no core file computes them; `TaskStatistics` is only declared.
- JSON encoding and the AsyncStorage implementation: the store is the two entries it holds, and the codec is taken to round-trip.
- Concurrency: two overlapping read-modify-write calls can lose an update; each operation is modelled as one atomic step.
- Date parsing is modelled only for `YYYY-MM-DD` and `YYYY-MM-DDTHH:mm` with a four-digit year. Every other string reads as NaN. A real engine accepts more shapes, among them the `+YYYYYY-MM-DD` that `formatDate` builds for years outside 0 to 9999. A well-shaped date whose day is past the end of its month (`2024-02-30`) is read as NaN; ECMA-262 lists DD only as 01 to 31, and some engines roll such a date over into the next month instead.
- What the notification library does with an Invalid Date trigger is not known from the code: it is the same `fails` input as any other library error, so the model lets it either throw (null) or schedule a reminder whose trigger is the Invalid Date.
- The zone is a fixed offset; daylight-saving changes and the implementation-defined zone name that `toTimeString` may append are not modelled.
- `parseInt` is exact on arbitrarily long digit strings; the double rounding of a real engine on very long numbers is not modelled.
- The notification handler setup and the delivery of reminders: they belong to the notification library.
- The library's reminder identifiers are modelled as the decimal text of a counter, since the real ones are opaque.
- A throwing permission query (project/utils/notifications.ts:20, 24) is modelled as one that throws before any dialog is shown or the status changes; whether a dialog that was shown before `requestPermissionsAsync` threw changed the status is not known from the code.
- The screens (`EditTaskScreen` and the tab screens), navigation, `Promise.all` loading, the splash screen, styles and colours. The user name `first last` that the edit screen passes to `scheduleTaskNotification` is an input of the model.
- Focus state of the inputs, the picker open buttons, and rendering: presentation only.
- The `onSave` callback and the `Alert` dialogs are modelled as the `Result` the save functions return.
- The picker platforms are only iOS or other, since the pickers tell iOS apart from every other platform and nothing more.
- Storage.NewTaskIdsDiffer: ids are not proved unique, because two tasks made in the same millisecond share one.
- DateUtils.FormatDateOfInstant: proved for years 0 to 9999 only; outside that range `toISOString` writes a six-digit signed year, which the function models but no lemma relates to the date key.
- DateUtils.ParseDateOfFormatDate: proved for years 0 to 9999 only, for the same reason.
- DateUtils.IsTaskDueOfKeys: stated for offsets of less than a day, which covers every real zone.
- Notifications.ReminderForKeys: stated for offsets of less than a day, which covers every real zone.
- DateUtils.IsTaskTodayEast: stated for offsets of less than a day, which covers every real zone.
- DateUtils.IsTaskTodayWest: stated for offsets of at most a day, which covers every real zone.
- TaskCard.PendingTaskTags: stated for zones at or ahead of UTC; behind UTC the Today tag follows `DateUtils.IsTaskTodayWest` instead.
- TaskForm.LoadedTimeOfKey: stated for time keys with hours below 24 and minutes below 60 and a `now` at least a day away from the edge of the time-value range; other keys carry into other days or give NaN as `setHours` does.
- TaskForm.SaveUnchangedTask: stated for tasks whose date key is a real date with a four-digit year and whose time key is a well-formed `HH:mm`.
