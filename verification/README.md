# Task tracker: timer endpoints and client state, in Dafny

A model of the time-tracking core of a small task tracker. The server keeps
tasks and time logs per user. A time log is opened by "start timer" and closed by
"stop timer", and the stop stores the duration in whole minutes. The web client
keeps the task list and the running timer. It shows a daily summary and formats
durations and the ticking clock.

The modules follow the program's structure:

- `Model` holds the records: `Task`, `TimeLog`, and `LogView`, a log as the
  client receives it. A `LogView`'s `task` field is the bare id, the populated
  `{_id, title}` object, or `null`.
- `TimeLogController` has the three endpoints. Each is a pure transition over a
  `Store` of tasks and logs, with the requester's id and the current instant
  (integer milliseconds) as inputs.
- `DailySummary` has the day filters, the minute total, the per-status counts,
  and `formatTime`.
- `Dashboard` has the list transitions and the running-timer updates of the
  request handlers. A failed request is an input (`None` or `false`).
- `TaskList` has the running-timer test, the row's timer control, the row's
  `formatTime`, and the inline edit form.
- `Timer` has the elapsed seconds and the `HH:MM:SS` / `MM:SS` display.
- `TaskForm` has the create form's field edits and its blank-title guard.
- `Seqs`, `Text` and `Wrappers` are shared helpers:
  - JavaScript's `filter`, `find` and `findIndex`;
  - a stable descending sort;
  - decimal `toString`, the truncating `%`, `padStart`, `split` and `trim`.

  Each formatter is paired with a reader (`ParseHoursMinutes`, `ParseClock`).
  The reader recovers the number from the rendered text, and each formatter's
  own contract states that reading its text back gives the number.

## Model

| member | source | states |
|---|---|---|
| TimeLogController.StartTimer | task-tracker-app/backend/controllers/timeLogController.js:7-38 | 404 exactly when the requester owns no task with that id. 400 exactly when they own it and an open log for the same user and task exists; open logs on other tasks do not block. It succeeds exactly in the remaining case, and then exactly one log is appended (requester, task, start = now, no end, no duration) while the tasks and every existing log stay as they were. |
| TimeLogController.StopTimer | task-tracker-app/backend/controllers/timeLogController.js:43-69 | Fails with 404 exactly when the requester has no open log on the task. Otherwise it closes one such open log: that log is replaced by the same log with end = now and its rounded duration, and the tasks and the number of logs are kept. |
| TimeLogController.Close | task-tracker-app/backend/controllers/timeLogController.js:58-62 | The saved log keeps its user, task and start, is closed at `now`, and records a duration within half a minute of the span from its start to `now`. |
| TimeLogController.RoundedMinutes | task-tracker-app/backend/controllers/timeLogController.js:59 | The result is the minute count nearest to the millisecond span, with halves rounding up. |
| TimeLogController.NinetySecondsIsTwoMinutes | task-tracker-app/backend/controllers/timeLogController.js:59 | 90 000 ms rounds to 2 minutes. |
| TimeLogController.StopRecordsRoundedDuration | task-tracker-app/backend/controllers/timeLogController.js:58-62 | A successful stop records a duration within half a minute of the span from the log's own start to now; a 90-second span gives 2. |
| TimeLogController.StopTouchesOnlyTheOpenLog | task-tracker-app/backend/controllers/timeLogController.js:48-63 | A stop leaves every log that is not an open log of that user and task unchanged, so closed logs keep their durations. |
| TimeLogController.StartTwiceConflicts | task-tracker-app/backend/controllers/timeLogController.js:18-26 | After a successful start, a second start on the same task is refused with 400. |
| TimeLogController.StopTwiceFails | task-tracker-app/backend/controllers/timeLogController.js:48-56 | After a successful stop, a second stop of the same task fails with 404, given at most one open log per user and task. |
| TimeLogController.StartKeepsAtMostOneOpen | task-tracker-app/backend/controllers/timeLogController.js:18-34 | A successful start keeps at most one open log per user and task. |
| TimeLogController.StopKeepsAtMostOneOpen | task-tracker-app/backend/controllers/timeLogController.js:48-63 | A successful stop keeps at most one open log per user and task. |
| TimeLogController.RunKeepsAtMostOneOpen | task-tracker-app/backend/controllers/timeLogController.js:7-69 | Any sequence of start and stop requests handled one at a time keeps at most one open log per user and task. |
| TimeLogController.GetLogs | task-tracker-app/backend/controllers/timeLogController.js:74-91 | The answer is ordered by start time, latest first. It holds each of the requester's logs (restricted to the given task when a non-empty task id is passed) as often as the store does, and no other log. |
| TimeLogController.ListResponse | task-tracker-app/backend/controllers/timeLogController.js:83-87 | Entry i is the i-th listed log with its own task populated (`AsPopulated`), so the body is a one-to-one image of the listed logs. Each entry is the requester's own, shows a selected stored log, and has its `task` populated or `null`, never a bare id. Entries are ordered latest start first. |
| Model.AsStored | task-tracker-app/backend/controllers/timeLogController.js:34 | The log sent straight after `create` (and, at line 65, after `save`) keeps `task` as the bare id of the log's task, with user, start, end and duration copied unchanged. |
| Model.AsPopulated | task-tracker-app/backend/controllers/timeLogController.js:83-85 | Population puts in the `task` field the `{_id, title}` object of the first task with the log's id, title included, or `null` exactly when no task has that id. It never leaves a bare id, and the other fields are unchanged. |
| Seqs.SortDesc | task-tracker-app/backend/controllers/timeLogController.js:85 | `sort({ startTime: -1 })`: the result is ordered by the key, largest first, and holds the same elements as often as the input. |
| Seqs.FindIndex | task-tracker-app/backend/controllers/timeLogController.js:12-22 | The choice `findOne` makes: the index of the first stored record satisfying the query; none exactly when no record does. |
| Seqs.Find | task-tracker-app/frontend/src/pages/Dashboard.jsx:37 | `find`: an element that satisfies the test, with none before it that does; none exactly when no element does. |
| Seqs.Filter | task-tracker-app/frontend/src/pages/Dashboard.jsx:68 | `filter`: every kept element is from the list and passes the test, every element that passes is kept, and the result is no longer than the list. |
| DailySummary.TodayTasks | task-tracker-app/frontend/src/pages/DailySummary.jsx:32-34 | Keeps exactly the tasks created between the day's bounds, both bounds included. |
| DailySummary.TodayLogs | task-tracker-app/frontend/src/pages/DailySummary.jsx:39-41 | Keeps exactly the logs started between the day's bounds, both bounds included. |
| DailySummary.TodayFiltersKeepOrder | task-tracker-app/frontend/src/pages/DailySummary.jsx:32-41 | Both day filters keep relative order: filtering a concatenation concatenates the filtered parts. |
| DailySummary.TotalTimeConcat | task-tracker-app/frontend/src/pages/DailySummary.jsx:45 | The total over two lists joined is the sum of their totals. |
| DailySummary.TotalTimeIgnoresRunning | task-tracker-app/frontend/src/pages/DailySummary.jsx:45 | A log without a duration adds nothing: the total equals the total over the logs that have one. |
| DailySummary.TotalTimeExample | task-tracker-app/frontend/src/pages/DailySummary.jsx:45 | Durations 30, 45 and none total 75. |
| DailySummary.TotalTime | task-tracker-app/frontend/src/pages/DailySummary.jsx:45 | The sum of the logs' minutes, a missing duration counting 0: not negative when no duration is, and 0 when no log carries a duration. |
| DailySummary.CountStatus | task-tracker-app/frontend/src/pages/DailySummary.jsx:46-48 | A status count never exceeds the number of tasks. |
| DailySummary.CountStatusSteps | task-tracker-app/frontend/src/pages/DailySummary.jsx:46-48 | A count is zero on no tasks, and each task adds one exactly when its status equals the counted string. |
| DailySummary.StatusCountsCover | task-tracker-app/frontend/src/pages/DailySummary.jsx:46-48 | The three counts sum to at most the number of tasks, with equality exactly when every status is one of the three strings. |
| DailySummary.StatusCountExample | task-tracker-app/frontend/src/pages/DailySummary.jsx:46-48 | For statuses Pending, Completed, Completed the counts are 2 completed, 1 pending and 0 in progress; the comparison is on the exact string. |
| DailySummary.ComputeStats | task-tracker-app/frontend/src/pages/DailySummary.jsx:44-55 | Each count is the number of the day's tasks with exactly that status, and the total is the minutes of the day's logs. The counts sum to at most the number of the day's tasks, and to exactly that when all their statuses are known. The total is not negative when no duration is. |
| DailySummary.FormatTime | task-tracker-app/frontend/src/pages/DailySummary.jsx:63-67 | For a non-negative count the text is `"<h>h <m>m"` with hours always shown, `m` below 60 and `60h + m` the count; it reads back as the same count. |
| Text.HoursAndMinutes | task-tracker-app/frontend/src/pages/DailySummary.jsx:64-65 | For a non-negative count: hours at least 0, minutes in 0..59, and 60 × hours + minutes equals the count. Hours are positive exactly from 60 minutes on. |
| Text.JsRem | task-tracker-app/frontend/src/components/Timer.jsx:21-22 | JavaScript's `%`: the remainder has the dividend's sign, agrees with the mathematical remainder for non-negative dividends, and is odd in the dividend. |
| Text.NatToString | task-tracker-app/frontend/src/components/Timer.jsx:25 | `toString` of a non-negative number is a non-empty digit string that denotes it, one digit wide exactly below 10, with no leading zero. |
| Text.IntToString | task-tracker-app/frontend/src/components/Timer.jsx:25 | `toString` of any integer: the digits of a non-negative value denote it; a negative value is a minus sign followed by the digits of its magnitude; neither form has a leading zero. |
| Text.PadStart | task-tracker-app/frontend/src/components/Timer.jsx:25 | `padStart(width, fill)`: the result is as wide as the text or the width, whichever is larger, ends with the text, and is `fill` before it. |
| Text.Trim | task-tracker-app/frontend/src/components/TaskForm.jsx:18 | `trim()` gives the empty string exactly when the text is all JavaScript white space. |
| Dashboard.PrependTask | task-tracker-app/frontend/src/pages/Dashboard.jsx:49 | The created task is at index 0, the list grows by one, and the old tasks follow in order. |
| Dashboard.ReplaceTask | task-tracker-app/frontend/src/pages/Dashboard.jsx:59 | Length is kept; every element with the id becomes the response and every other element is unchanged. |
| Dashboard.RemoveTask | task-tracker-app/frontend/src/pages/Dashboard.jsx:68 | No element with the id remains; every other element remains. |
| Dashboard.RemoveTaskKeepsOrder | task-tracker-app/frontend/src/pages/Dashboard.jsx:68 | Removal keeps relative order: removing from a concatenation concatenates the pruned parts. |
| Dashboard.RemoveTaskIdempotent | task-tracker-app/frontend/src/pages/Dashboard.jsx:68 | Deleting twice is deleting once. |
| Dashboard.ReplaceTaskIdempotent | task-tracker-app/frontend/src/pages/Dashboard.jsx:59 | Applying the same update twice is applying it once. |
| Dashboard.ReplaceTaskKeepsIds | task-tracker-app/frontend/src/pages/Dashboard.jsx:59 | An update whose response keeps the id keeps every id in the list. |
| Dashboard.CreateThenDeleteRestores | task-tracker-app/frontend/src/pages/Dashboard.jsx:46-72 | Deleting a freshly created task with an unused id gives back the list as it was. |
| Dashboard.HandleCreateTask | task-tracker-app/frontend/src/pages/Dashboard.jsx:46-54 | On success the created task goes in front; on failure nothing changes; the running timer is never touched. |
| Dashboard.HandleUpdateTask | task-tracker-app/frontend/src/pages/Dashboard.jsx:56-63 | On success the matching tasks become the response and the others stay; on failure nothing changes. |
| Dashboard.HandleDeleteTask | task-tracker-app/frontend/src/pages/Dashboard.jsx:65-72 | On success the list becomes the old list with the tasks of that id removed, in order (so none with the id remains and every other stays); on failure nothing changes. |
| Dashboard.CheckRunningTimer | task-tracker-app/frontend/src/pages/Dashboard.jsx:34-44 | The running timer becomes the first listed log with no end time. With no such log, or a failed request, the state is unchanged. |
| Dashboard.HandleStartTimer | task-tracker-app/frontend/src/pages/Dashboard.jsx:74-81 | A successful start makes the returned log the running timer; a failure changes nothing. |
| Dashboard.HandleStopTimer | task-tracker-app/frontend/src/pages/Dashboard.jsx:83-91 | A successful stop clears the running timer; a failure changes nothing. |
| TaskList.RunningTestsAgreeAfterStart | task-tracker-app/frontend/src/components/TaskList.jsx:34-36 | On the log the start endpoint returns, the written and the intended running-timer tests both hold exactly for the started task. |
| TaskList.IsTimerRunningAsWritten | task-tracker-app/frontend/src/components/TaskList.jsx:34-36 | The written test implies the intended one, agrees with it when the `task` field is a bare id, and never holds when it is populated or `null`. |
| TaskList.WrittenTestMissesListedTimer | task-tracker-app/frontend/src/components/TaskList.jsx:34-36 | On a log from the listing endpoint, the written test `runningTimer.task === taskId` fails for every task id. |
| TaskList.IntendedTestFindsListedTimer | task-tracker-app/frontend/src/components/TaskList.jsx:34-36 | On a listed log, the intended test holds exactly for the log's own task, when that task exists. |
| TaskList.ReloadCounterexample | task-tracker-app/frontend/src/components/TaskList.jsx:34-36 | Start a timer on "t1", then reload: the restored running timer is open on "t1", yet the written test fails, and the row of "t1" shows a disabled Start instead of Stop; the intended control shows Stop. |
| TaskList.RowTimerControl | task-tracker-app/frontend/src/components/TaskList.jsx:126-140 | As rendered: a row shows Stop exactly when the written test holds. Otherwise it shows Start, disabled exactly when some timer runs, and enabled only when none runs. |
| TaskList.RowTimerControlIntended | task-tracker-app/frontend/src/components/TaskList.jsx:126-140 | With the intended test: Stop exactly when the running log refers to this row's task, otherwise Start with the same disable rule. |
| TaskList.RowControlsAgreeOnBareId | task-tracker-app/frontend/src/components/TaskList.jsx:126-140 | The two controls coincide when no timer runs or the running log's `task` field is a bare id. |
| TaskList.WrittenRowNeverStopsListedTimer | task-tracker-app/frontend/src/components/TaskList.jsx:126-137 | With a running timer from the listing endpoint, every row shows a disabled Start and none shows Stop. |
| TaskList.StartOnlyWhenIdle | task-tracker-app/frontend/src/components/TaskList.jsx:133-137 | An enabled Start means no timer is running. After a successful start, no row offers an enabled Start. |
| TaskList.FormatTime | task-tracker-app/frontend/src/components/TaskList.jsx:38-43 | Exactly `0m` for a missing or zero count; `<m>m` below an hour; from an hour on `<h>h <m>m` with h positive, m below 60 and 60h + m the count. For a missing or non-negative count the text reads back as the count, a missing one as 0. |
| TaskList.HoursMinutesText | task-tracker-app/frontend/src/components/TaskList.jsx:42 | For non-negative hours and minutes, `<h>h <m>m` (or `<m>m` with no hours) reads back as 60 × hours + minutes. |
| TaskList.FormatTimeShowsHours | task-tracker-app/frontend/src/components/TaskList.jsx:38-43 | The hours field appears exactly from 60 minutes on. |
| TaskList.HandleEdit | task-tracker-app/frontend/src/components/TaskList.jsx:14-21 | Editing starts on the task's id with its title and status copied; a missing description becomes `''`. |
| TaskList.EditField | task-tracker-app/frontend/src/components/TaskList.jsx:66-83 | Each input changes its own field only, and the edited task stays the same. |
| TaskList.HandleSave | task-tracker-app/frontend/src/components/TaskList.jsx:23-27 | Exactly one update with the task id and the current form, then back to idle with an empty form. |
| TaskList.HandleCancel | task-tracker-app/frontend/src/components/TaskList.jsx:29-32 | Back to idle with an empty form, and no update. |
| TaskList.SaveAndCancelAgreeOnState | task-tracker-app/frontend/src/components/TaskList.jsx:23-32 | Save and Cancel end in the same state; only Save sends an update. |
| TaskList.EditStatusThenSave | task-tracker-app/frontend/src/components/TaskList.jsx:14-27 | Edit, change the status, then save sends the task's fields with the new status. |
| Timer.ElapsedSeconds | task-tracker-app/frontend/src/components/Timer.jsx:12 | The whole seconds elapsed, rounded down; not negative when now is not before the start. |
| Timer.Tick | task-tracker-app/frontend/src/components/Timer.jsx:6-17 | Without a start time the display keeps its value; with one it shows the whole seconds since the start. |
| Timer.ClockFields | task-tracker-app/frontend/src/components/Timer.jsx:20-22 | The hours field is positive exactly from 3600 seconds on. |
| Timer.ClockFieldsDecompose | task-tracker-app/frontend/src/components/Timer.jsx:20-22 | For a non-negative count: 3600 × hours + 60 × minutes + seconds equals the count, and minutes and seconds are below 60. |
| Timer.Pad2Field | task-tracker-app/frontend/src/components/Timer.jsx:25 | A padded field is all digits, at least two wide (exactly two below 100), and keeps its value. |
| Timer.LayoutFields | task-tracker-app/frontend/src/components/Timer.jsx:24-28 | The layout has three colon-separated fields when hours are positive, two otherwise. Every field is digits at least two wide, and the last two are exactly two wide. |
| Timer.FormatTimeFields | task-tracker-app/frontend/src/components/Timer.jsx:19-29 | The display has three fields from an hour on and two below. Minutes and seconds are exactly two digits, hours at least two. |
| Timer.FormatTime | task-tracker-app/frontend/src/components/Timer.jsx:19-29 | For a non-negative count the display is the layout of hours, minutes and seconds with minutes and seconds below 60 that recompose to the count, and it reads back as that count. |
| Timer.LayoutRoundTrip | task-tracker-app/frontend/src/components/Timer.jsx:24-28 | Fields that denote a count, laid out with or without the hours, read back as that count. |
| TaskForm.HandleChange | task-tracker-app/frontend/src/components/TaskForm.jsx:9-14 | The named field takes the value and the other field is unchanged. |
| TaskForm.HandleSubmit | task-tracker-app/frontend/src/components/TaskForm.jsx:16-22 | A blank title (empty or white space only) sends nothing and leaves the form alone. Otherwise the form is sent exactly once and reset to empty. |
| TaskForm.WhitespaceTitleRefused | task-tracker-app/frontend/src/components/TaskForm.jsx:18 | A title of spaces, tab and newline is not submitted. |
| TaskForm.PaddedTitleSubmitted | task-tracker-app/frontend/src/components/TaskForm.jsx:18-20 | A title with surrounding blanks is submitted once, untrimmed. |

## Left out

- `task-tracker-app/backend/server.js`, the route files and `test.js`: wiring, database connection and listening. There is no behaviour to state.
- Authentication and the task controller and models are not part of this model. The requester id and the task records are inputs.
- Mongoose itself (`findOne`, `create`, `save`, `populate`, the database-side sort):
  - `findOne` is the first match in store order;
  - `populate` looks the task up by id alone;
  - the sort is a stable descending sort;
  - a log's `_id` is not modelled.
- TimeLogController.GetLogs: states sortedness and the exact multiset of logs, not the order among equal start times, which the database does not fix.
- The check-then-create race in `startTimer`: the model is sequential. The one-open-log invariant is proved for requests handled one at a time.
- The 500 answers from thrown exceptions: they come from the database layer, which is not modelled.
- Clocks, time zones and the computation of the local day's bounds: `now`, `startOfDay` and `endOfDay` are integer-millisecond inputs. The day filter compares those integers with both bounds included, as the code does; on this point the code is followed rather than a half-open day.
- React rendering, `useEffect`/`setInterval` ticking, navigation, and the `api` calls with their `console.error` handling: only the resulting state updates are modelled. A failed call is a `None`/`false` input.
- The task list refresh after a stop (`fetchTasks`) is a separate fetch and is not modelled.
- JavaScript's floating point, `NaN`, and non-integer or non-numeric durations: durations and instants are integers. The falsy checks (`log.duration || 0`, `!minutes`, `!startTime`) are modelled as a missing value, plus zero where the check is numeric.
- Dashboard.HandleCreateTask: `setShowForm(false)` on success only hides the creation form. The form's visibility is not part of the modelled dashboard state.
- TaskForm.HandleChange: a name other than `title` or `description` would add a key nothing reads. The model leaves the form unchanged instead.

## Findings

| source | as written | input that shows it | evidently intended | confidence | as-written member | corrected member |
|---|---|---|---|---|---|---|
| task-tracker-app/frontend/src/components/TaskList.jsx:34-36 | `runningTimer.task === taskId` compares the log's `task` field with the row's id string. After a reload the running timer comes from the listing endpoint, which populates `task` into a `{_id, title}` object, so the comparison is false for every row. | Start a timer on task "t1", then reload the dashboard. The restored timer is the open log on "t1", yet no row shows Stop, and every row's Start is disabled. | Compare the id the `task` field refers to, bare or populated, with the row's id. | not executed | TaskList.ReloadCounterexample | TaskList.IntendedTestFindsListedTimer |
