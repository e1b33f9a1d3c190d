/** The dashboard page's state: the task list and the running timer, and how
    each handler changes them once its request has answered. A request that
    fails is caught and logged, and its handler changes nothing; failure is an
    input here (`None` or `false`). */
module Dashboard {
  import opened Wrappers
  import opened Seqs
  import opened Model

  datatype State = State(tasks: seq<Task>, runningTimer: Option<LogView>)

  /** `[response.data, ...tasks]`. */
  function PrependTask(tasks: seq<Task>, created: Task): (r: seq<Task>)
    ensures |r| == |tasks| + 1
    ensures r[0] == created
    ensures forall i :: 0 <= i < |tasks| ==> r[i + 1] == tasks[i]
  {
    [created] + tasks
  }

  /** `tasks.map(task => task._id === id ? response.data : task)`. */
  function ReplaceTask(tasks: seq<Task>, id: TaskId, updated: Task): (r: seq<Task>)
    ensures |r| == |tasks|
    ensures forall i :: 0 <= i < |tasks| && tasks[i].id == id ==> r[i] == updated
    ensures forall i :: 0 <= i < |tasks| && tasks[i].id != id ==> r[i] == tasks[i]
  {
    seq(|tasks|, i requires 0 <= i < |tasks| => if tasks[i].id == id then updated else tasks[i])
  }

  /** `tasks.filter(task => task._id !== id)`. */
  function RemoveTask(tasks: seq<Task>, id: TaskId): (r: seq<Task>)
    ensures forall i :: 0 <= i < |r| ==> r[i].id != id && r[i] in tasks
    ensures forall i :: 0 <= i < |tasks| && tasks[i].id != id ==> tasks[i] in r
  {
    Filter(tasks, (t: Task) => t.id != id)
  }

  /** Removal keeps the survivors in their original order: the front and the
      back of a list are pruned independently. */
  lemma RemoveTaskKeepsOrder(a: seq<Task>, b: seq<Task>, id: TaskId)
    ensures RemoveTask(a + b, id) == RemoveTask(a, id) + RemoveTask(b, id)
  {
    FilterConcat(a, b, (t: Task) => t.id != id);
  }

  /** Deleting a task that was just created, under an id no other task had,
      gives back the list as it was before the create. */
  lemma {:induction false} CreateThenDeleteRestores(tasks: seq<Task>, created: Task)
    requires forall i :: 0 <= i < |tasks| ==> tasks[i].id != created.id
    ensures RemoveTask(PrependTask(tasks, created), created.id) == tasks
  {
    var p := (t: Task) => t.id != created.id;
    assert PrependTask(tasks, created) == [created] + tasks;
    FilterConcat([created], tasks, p);
    FilterKeepsAll(tasks, p);
    assert Filter([created], p) == [];
  }

  /** Deleting twice is deleting once. */
  lemma RemoveTaskIdempotent(tasks: seq<Task>, id: TaskId)
    ensures RemoveTask(RemoveTask(tasks, id), id) == RemoveTask(tasks, id)
  {
    FilterKeepsAll(RemoveTask(tasks, id), (t: Task) => t.id != id);
  }

  /** Applying the same update response twice is applying it once. */
  lemma ReplaceTaskIdempotent(tasks: seq<Task>, id: TaskId, updated: Task)
    ensures ReplaceTask(ReplaceTask(tasks, id, updated), id, updated) == ReplaceTask(tasks, id, updated)
  {
  }

  /** After an update whose response keeps the id, the list's ids are as before. */
  lemma ReplaceTaskKeepsIds(tasks: seq<Task>, id: TaskId, updated: Task)
    requires updated.id == id
    ensures forall i :: 0 <= i < |tasks| ==> ReplaceTask(tasks, id, updated)[i].id == tasks[i].id
  {
  }

  /** `handleCreateTask`: the created task goes to the front. */
  function HandleCreateTask(st: State, response: Option<Task>): (r: State)
    ensures response.None? ==> r == st
    ensures response.Some? ==> r.tasks == [response.value] + st.tasks
    ensures r.runningTimer == st.runningTimer
  {
    match response
    case None => st
    case Some(created) => st.(tasks := PrependTask(st.tasks, created))
  }

  /** `handleUpdateTask`. */
  function HandleUpdateTask(st: State, id: TaskId, response: Option<Task>): (r: State)
    ensures response.None? ==> r == st
    ensures |r.tasks| == |st.tasks|
    ensures forall i :: 0 <= i < |st.tasks| && st.tasks[i].id != id ==> r.tasks[i] == st.tasks[i]
    ensures response.Some? ==> forall i :: 0 <= i < |st.tasks| && st.tasks[i].id == id ==> r.tasks[i] == response.value
    ensures r.runningTimer == st.runningTimer
  {
    match response
    case None => st
    case Some(updated) => st.(tasks := ReplaceTask(st.tasks, id, updated))
  }

  /** `handleDeleteTask`. */
  function HandleDeleteTask(st: State, id: TaskId, deleted: bool): (r: State)
    ensures !deleted ==> r == st
    ensures deleted ==> r.tasks == RemoveTask(st.tasks, id)
    ensures deleted ==> forall i :: 0 <= i < |r.tasks| ==> r.tasks[i].id != id && r.tasks[i] in st.tasks
    ensures forall i :: 0 <= i < |st.tasks| && st.tasks[i].id != id ==> st.tasks[i] in r.tasks
    ensures r.runningTimer == st.runningTimer
  {
    if deleted then st.(tasks := RemoveTask(st.tasks, id)) else st
  }

  /** `checkRunningTimer`: the first listed log with no end time, if any, becomes the running timer. */
  function CheckRunningTimer(st: State, response: Option<seq<LogView>>): (r: State)
    ensures r.tasks == st.tasks
    ensures response.None? ==> r == st
    ensures response.Some? && (forall i :: 0 <= i < |response.value| ==> response.value[i].endTime.Some?) ==> r == st
    ensures response.Some? && (exists i :: 0 <= i < |response.value| && response.value[i].endTime.None?) ==>
              exists k :: 0 <= k < |response.value| && r.runningTimer == Some(response.value[k])
                          && response.value[k].endTime.None?
                          && forall j :: 0 <= j < k ==> response.value[j].endTime.Some?
  {
    match response
    case None => st
    case Some(logs) =>
      match Find(logs, (l: LogView) => l.endTime.None?)
      case Some(open) => st.(runningTimer := Some(open))
      case None => st
  }

  /** `handleStartTimer`: the log the server answers with becomes the running timer. */
  function HandleStartTimer(st: State, response: Option<LogView>): (r: State)
    ensures response.Some? ==> r.runningTimer == response
    ensures response.None? ==> r == st
    ensures r.tasks == st.tasks
  {
    if response.Some? then st.(runningTimer := response) else st
  }

  /** `handleStopTimer`: a successful stop clears the running timer. The task
      list refresh it triggers is a separate fetch. */
  function HandleStopTimer(st: State, stopped: bool): (r: State)
    ensures stopped ==> r.runningTimer.None?
    ensures !stopped ==> r == st
    ensures r.tasks == st.tasks
  {
    if stopped then st.(runningTimer := None) else st
  }
}
