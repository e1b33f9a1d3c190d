/** The task list component: which timer control a row shows, the row's
    duration text, and the inline edit form's state machine. */
module TaskList {
  import opened Wrappers
  import opened Seqs
  import opened Text
  import opened Model
  import TimeLogController
  import Dashboard

  /** The running-timer test exactly as the component writes it:
      `runningTimer && runningTimer.task === taskId`, a strict comparison of the
      log's `task` field with the row's id string. It agrees with the intended
      test whenever the field holds a bare id, and never holds otherwise. */
  function IsTimerRunningAsWritten(running: Option<LogView>, taskId: TaskId): (b: bool)
    ensures b ==> IsTimerRunning(running, taskId)
    ensures running.Some? && running.value.task.IdRef? ==> (b <==> IsTimerRunning(running, taskId))
    ensures running.Some? && !running.value.task.IdRef? ==> !b
  {
    running.Some? && running.value.task == IdRef(taskId)
  }

  /** The task id a log's `task` field refers to, whether bare or populated. */
  function RefId(ref: TaskRef): (r: Option<TaskId>)
    ensures ref.NullRef? <==> r.None?
  {
    match ref
    case IdRef(id) => Some(id)
    case PopulatedRef(id, _) => Some(id)
    case NullRef => None
  }

  /** The running-timer test as intended: the running log refers to this task,
      in whichever shape the server sent its `task` field. */
  predicate IsTimerRunning(running: Option<LogView>, taskId: TaskId) {
    running.Some? && RefId(running.value.task) == Some(taskId)
  }

  /** On a log just returned by the start endpoint both tests agree: the running
      timer is on exactly the task it was started for. */
  lemma RunningTestsAgreeAfterStart(l: TimeLog, taskId: TaskId)
    ensures IsTimerRunning(Some(AsStored(l)), taskId) <==> l.task == taskId
    ensures IsTimerRunningAsWritten(Some(AsStored(l)), taskId) <==> l.task == taskId
  {
  }

  /** On a log that came from the listing endpoint (as after a page reload) the
      written test fails for every row. */
  lemma WrittenTestMissesListedTimer(l: TimeLog, tasks: seq<Task>, taskId: TaskId)
    ensures !IsTimerRunningAsWritten(Some(AsPopulated(l, tasks)), taskId)
  {
  }

  /** On a listed log the intended test holds for the log's own task, whenever
      that task still exists, and for no other. */
  lemma IntendedTestFindsListedTimer(l: TimeLog, tasks: seq<Task>, taskId: TaskId)
    ensures IsTimerRunning(Some(AsPopulated(l, tasks)), taskId)
            <==> taskId == l.task && exists i :: 0 <= i < |tasks| && tasks[i].id == l.task
  {
  }

  /** A concrete run: user "u" owns task "t1", starts its timer, then reloads the
      dashboard. The reloaded running timer is the open log on "t1", yet the
      written test says no row's timer is running, so the row of "t1" offers a
      disabled Start and no Stop; the intended test finds it and offers Stop. */
  lemma ReloadCounterexample()
    ensures var task := Task("t1", "u", "Write report", None, Pending, 0);
      var s := TimeLogController.Store([task], []);
      var started := TimeLogController.StartTimer(s, "u", "t1", 1000);
      && started.Ok?
      && var reloaded := Dashboard.CheckRunningTimer(Dashboard.State([task], None),
                           Some(TimeLogController.ListResponse(started.store, "u", None)));
      && reloaded.runningTimer.Some?
      && reloaded.runningTimer.value.endTime.None?
      && !IsTimerRunningAsWritten(reloaded.runningTimer, "t1")
      && IsTimerRunning(reloaded.runningTimer, "t1")
      && RowTimerControl(reloaded.runningTimer, "t1") == StartButton(true)
      && RowTimerControlIntended(reloaded.runningTimer, "t1") == StopButton
  {
    var task := Task("t1", "u", "Write report", None, Pending, 0);
    var s := TimeLogController.Store([task], []);
    assert TimeLogController.OwnedBy(s.tasks[0], "u", "t1");
    var started := TimeLogController.StartTimer(s, "u", "t1", 1000);
    var log := TimeLog("u", "t1", 1000, None, None);
    assert started.store.logs == [log];
    var listed := TimeLogController.GetLogs(started.store, "u", None);
    assert multiset(listed)[log] == 1;
    assert |listed| == 1 by {
      assert |multiset(listed)| == |multiset([log])|;
    }
    assert listed == [log] by {
      assert listed[0] in multiset(listed);
    }
    var response := TimeLogController.ListResponse(started.store, "u", None);
    assert response == TimeLogController.PopulateAll(listed, [task]);
    var view := AsPopulated(log, [task]);
    assert response == [view];
    assert Find([task], (t: Task) => t.id == "t1") == Some(task);
    assert view.task == PopulatedRef("t1", "Write report");
    var reloaded := Dashboard.CheckRunningTimer(Dashboard.State([task], None), Some(response));
    assert reloaded.runningTimer == Some(view);
    WrittenRowNeverStopsListedTimer(log, [task], "t1");
  }

  /** The controls a row offers for its timer. */
  datatype TimerControl = StopButton | StartButton(disabled: bool)

  /** The row's control as the component renders it: Stop when the written
      test holds, otherwise Start, disabled (`disabled={runningTimer}`)
      whenever any timer is running. */
  function RowTimerControl(running: Option<LogView>, taskId: TaskId): (c: TimerControl)
    ensures c.StopButton? <==> IsTimerRunningAsWritten(running, taskId)
    ensures c.StartButton? ==> (c.disabled <==> running.Some?)
    ensures c == StartButton(false) <==> running.None?
  {
    if IsTimerRunningAsWritten(running, taskId) then StopButton else StartButton(running.Some?)
  }

  /** The row's control with the intended test: Stop exactly when the running
      log refers to this row's task, in whichever shape its `task` field came. */
  function RowTimerControlIntended(running: Option<LogView>, taskId: TaskId): (c: TimerControl)
    ensures c.StopButton? <==> IsTimerRunning(running, taskId)
    ensures c.StartButton? ==> (c.disabled <==> running.Some?)
    ensures c == StartButton(false) <==> running.None?
  {
    if IsTimerRunning(running, taskId) then StopButton else StartButton(running.Some?)
  }

  /** Both controls agree whenever the running log's `task` field is a bare id,
      as on the log the start endpoint returns. */
  lemma RowControlsAgreeOnBareId(running: Option<LogView>, taskId: TaskId)
    requires running.None? || running.value.task.IdRef?
    ensures RowTimerControl(running, taskId) == RowTimerControlIntended(running, taskId)
  {
  }

  /** With a running timer that came from the listing endpoint, every row, its
      own task's included, offers a disabled Start and none offers Stop. */
  lemma WrittenRowNeverStopsListedTimer(l: TimeLog, tasks: seq<Task>, taskId: TaskId)
    ensures RowTimerControl(Some(AsPopulated(l, tasks)), taskId) == StartButton(true)
  {
    WrittenTestMissesListedTimer(l, tasks, taskId);
  }

  /** A start can be issued from the list only when no timer is running, so the
      start handler never replaces a running timer; once it has answered, every
      other row's Start is disabled. */
  lemma StartOnlyWhenIdle(st: Dashboard.State, taskId: TaskId, response: Option<LogView>, other: TaskId)
    requires RowTimerControl(st.runningTimer, taskId) == StartButton(false)
    ensures st.runningTimer.None?
    ensures response.Some? ==> RowTimerControl(Dashboard.HandleStartTimer(st, response).runningTimer, other) != StartButton(false)
  {
  }

  /** `hours > 0 ? "<h>h <m>m" : "<m>m"`: for non-negative fields the text
      reads back as the minutes they denote. */
  function HoursMinutesText(h: int, m: int): (r: string)
    ensures h >= 0 && m >= 0 ==> ParseHoursMinutes(r) == Some(60 * h + m)
  {
    if h > 0 then
      var text := IntToString(h) + "h " + IntToString(m) + "m";
      if m >= 0 then ReadHoursMinutes(h, m); text else text
    else
      var text := IntToString(m) + "m";
      if h >= 0 && m >= 0 then ReadMinutesOnly(m); text else text
  }

  /** The row's `formatTime(minutes)`: `'0m'` for a falsy value, otherwise the
      hours and minutes text. For a missing or non-negative count the text reads
      back as the count (a missing one as 0). */
  function FormatTime(minutes: Option<int>): (r: string)
    ensures (minutes.None? || minutes.value >= 0) ==> ParseHoursMinutes(r) == Some(minutes.GetOr(0))
    ensures minutes.None? || minutes.value == 0 ==> r == "0m"
    ensures minutes.Some? && 0 < minutes.value < 60 ==> r == NatToString(minutes.value) + "m"
    ensures minutes.Some? && minutes.value >= 60 ==>
              exists h: nat, m: nat :: 0 < h && m < 60 && 60 * h + m == minutes.value &&
                                       r == NatToString(h) + "h " + NatToString(m) + "m"
  {
    if minutes.None? || minutes.value == 0 then
      ReadMinutesOnly(0);
      "0m"
    else
      var hm := HoursAndMinutes(minutes.value);
      HoursMinutesText(hm.0, hm.1)
  }

  /** The hours field appears exactly when the count reaches an hour. */
  lemma FormatTimeShowsHours(minutes: nat)
    ensures 'h' in FormatTime(Some(minutes)) <==> minutes >= 60
  {
    var (h, m) := HoursAndMinutes(minutes);
    var text := FormatTime(Some(minutes));
    if minutes >= 60 {
      assert text[|IntToString(h)|] == 'h';
    } else if minutes > 0 {
      assert text == IntToString(m) + "m";
      DigitsExclude(IntToString(m), 'h');
    }
  }

  /** The inline edit form's fields. */
  datatype EditForm = EditForm(title: string, description: string, status: string)

  const BlankForm := EditForm("", "", "")

  /** Which task is being edited, if any, and the form's contents. */
  datatype EditState = EditState(editing: Option<TaskId>, form: EditForm)

  const Idle := EditState(None, BlankForm)

  /** A call of the `onUpdate` callback. */
  datatype UpdateCall = UpdateCall(id: TaskId, updates: EditForm)

  /** `handleEdit(task)`: edit this task, starting from its current fields. */
  function HandleEdit(task: Task): (st: EditState)
    ensures st.editing == Some(task.id)
    ensures st.form.title == task.title && st.form.status == task.status
    ensures task.description.Some? ==> st.form.description == task.description.value
    ensures task.description.None? ==> st.form.description == ""
  {
    EditState(Some(task.id), EditForm(task.title, task.description.GetOr(""), task.status))
  }

  datatype FormField = TitleField | DescriptionField | StatusField

  /** The form's `onChange` handlers: one field takes the new value. */
  function EditField(st: EditState, field: FormField, value: string): (r: EditState)
    ensures r.editing == st.editing
    ensures field == TitleField ==> r.form.title == value
    ensures field == DescriptionField ==> r.form.description == value
    ensures field == StatusField ==> r.form.status == value
    ensures field != TitleField ==> r.form.title == st.form.title
    ensures field != DescriptionField ==> r.form.description == st.form.description
    ensures field != StatusField ==> r.form.status == st.form.status
  {
    match field
    case TitleField => st.(form := st.form.(title := value))
    case DescriptionField => st.(form := st.form.(description := value))
    case StatusField => st.(form := st.form.(status := value))
  }

  /** `handleSave(taskId)`: one update with the form as it stands, then back to idle. */
  function HandleSave(st: EditState, taskId: TaskId): (r: (EditState, seq<UpdateCall>))
    ensures r.0 == Idle
    ensures |r.1| == 1 && r.1[0].id == taskId && r.1[0].updates == st.form
  {
    (Idle, [UpdateCall(taskId, st.form)])
  }

  /** `handleCancel()`: back to idle, and no update. */
  function HandleCancel(st: EditState): (r: (EditState, seq<UpdateCall>))
    ensures r.0 == Idle
    ensures r.1 == []
  {
    (Idle, [])
  }

  /** Save and Cancel leave the component in the same state; only Save reports an update. */
  lemma SaveAndCancelAgreeOnState(st: EditState, taskId: TaskId)
    ensures HandleSave(st, taskId).0 == HandleCancel(st).0
    ensures |HandleSave(st, taskId).1| == |HandleCancel(st).1| + 1
  {
  }

  /** Editing a task, changing its status and saving sends exactly that task's
      fields with the new status. */
  lemma EditStatusThenSave(task: Task, status: string)
    ensures HandleSave(EditField(HandleEdit(task), StatusField, status), task.id).1
            == [UpdateCall(task.id, EditForm(task.title, task.description.GetOr(""), status))]
  {
  }
}
