/** The server's timer endpoints: start a timer on a task, stop it, list the
    caller's logs. Each handler is a pure transition over an abstract store of
    tasks and time logs; the requester's id and the current instant are inputs. */
module TimeLogController {
  import opened Wrappers
  import opened Seqs
  import opened Model

  /** The collections the handlers read and write, in insertion order. */
  datatype Store = Store(tasks: seq<Task>, logs: seq<TimeLog>)

  /** The handled failures and the HTTP status each answers with. */
  datatype Failure = TaskNotFound | TimerAlreadyRunning | NoRunningTimer {
    function Status(): int {
      match this
      case TaskNotFound => 404
      case TimerAlreadyRunning => 400
      case NoRunningTimer => 404
    }
  }

  /** A handler's result: the new store with the log it answers with, or a failure
      (which leaves the store as it was). */
  datatype Outcome = Ok(store: Store, log: TimeLog) | Err(failure: Failure)

  predicate OwnedBy(t: Task, user: UserId, taskId: TaskId) {
    t.id == taskId && t.user == user
  }

  predicate OpenFor(l: TimeLog, user: UserId, taskId: TaskId) {
    l.task == taskId && l.user == user && l.IsOpen()
  }

  /** The requester owns a task with this id. */
  predicate HasTask(s: Store, user: UserId, taskId: TaskId) {
    exists i :: 0 <= i < |s.tasks| && OwnedBy(s.tasks[i], user, taskId)
  }

  /** The requester has a running timer on this task. */
  predicate HasOpenLog(logs: seq<TimeLog>, user: UserId, taskId: TaskId) {
    exists j :: 0 <= j < |logs| && OpenFor(logs[j], user, taskId)
  }

  const MillisPerMinute: int := 60000

  /** `Math.round(ms / 60000)`: the nearest whole minute, halves rounding up. */
  function RoundedMinutes(ms: int): (m: int)
    ensures MillisPerMinute * m - MillisPerMinute / 2 <= ms < MillisPerMinute * m + MillisPerMinute / 2
  {
    (ms + MillisPerMinute / 2) / MillisPerMinute
  }

  /** 90 seconds is a minute and a half, which rounds up to two minutes. */
  lemma NinetySecondsIsTwoMinutes()
    ensures RoundedMinutes(90000) == 2
  {
  }

  /** The log as the stop handler saves it: the same user, task and start, now
      closed at `now` with the span rounded to the nearest minute. */
  function Close(l: TimeLog, now: int): (r: TimeLog)
    ensures r.user == l.user && r.task == l.task && r.startTime == l.startTime
    ensures !r.IsOpen() && r.endTime == Some(now)
    ensures r.duration.Some?
    ensures MillisPerMinute * r.duration.value - MillisPerMinute / 2 <= now - l.startTime
    ensures now - l.startTime < MillisPerMinute * r.duration.value + MillisPerMinute / 2
  {
    l.(endTime := Some(now), duration := Some(RoundedMinutes(now - l.startTime)))
  }

  /** POST /timelogs/start. */
  function StartTimer(s: Store, user: UserId, taskId: TaskId, now: int): (r: Outcome)
    ensures r == Err(TaskNotFound) <==> !HasTask(s, user, taskId)
    ensures r == Err(TimerAlreadyRunning) <==> HasTask(s, user, taskId) && HasOpenLog(s.logs, user, taskId)
    ensures r.Ok? <==> HasTask(s, user, taskId) && !HasOpenLog(s.logs, user, taskId)
    ensures r.Ok? ==> r.log == TimeLog(user, taskId, now, None, None)
    ensures r.Ok? ==> r.store == Store(s.tasks, s.logs + [r.log])
  {
    if FindIndex(s.tasks, (t: Task) => OwnedBy(t, user, taskId)).None? then
      Err(TaskNotFound)
    else if FindIndex(s.logs, (l: TimeLog) => OpenFor(l, user, taskId)).Some? then
      Err(TimerAlreadyRunning)
    else
      var log := TimeLog(user, taskId, now, None, None);
      Ok(Store(s.tasks, s.logs + [log]), log)
  }

  /** POST /timelogs/stop. */
  function StopTimer(s: Store, user: UserId, taskId: TaskId, now: int): (r: Outcome)
    ensures r.Err? <==> !HasOpenLog(s.logs, user, taskId)
    ensures r.Err? ==> r.failure == NoRunningTimer
    ensures r.Ok? ==> r.store.tasks == s.tasks && |r.store.logs| == |s.logs|
    ensures r.Ok? ==> r.log.user == user && r.log.task == taskId && r.log.endTime == Some(now)
    ensures r.Ok? ==> exists k :: 0 <= k < |s.logs| && OpenFor(s.logs[k], user, taskId)
                                  && r.log == Close(s.logs[k], now)
                                  && r.store.logs == s.logs[k := r.log]
  {
    match FindIndex(s.logs, (l: TimeLog) => OpenFor(l, user, taskId))
    case None => Err(NoRunningTimer)
    case Some(k) =>
      var log := Close(s.logs[k], now);
      Ok(Store(s.tasks, s.logs[k := log]), log)
  }

  /** A successful stop fixes the duration from the log's own start: started at
      `t` and stopped 90 seconds later, the log records two minutes. */
  lemma StopRecordsRoundedDuration(s: Store, user: UserId, taskId: TaskId, now: int)
    requires StopTimer(s, user, taskId, now).Ok?
    ensures var r := StopTimer(s, user, taskId, now);
      && r.log.duration.Some?
      && now - r.log.startTime - MillisPerMinute / 2 < MillisPerMinute * r.log.duration.value
      && MillisPerMinute * r.log.duration.value <= now - r.log.startTime + MillisPerMinute / 2
      && (now - r.log.startTime == 90000 ==> r.log.duration == Some(2))
  {
  }

  /** A stop rewrites only the open log it found: every other log, and in
      particular every closed log with its stored duration, is left as it was. */
  lemma StopTouchesOnlyTheOpenLog(s: Store, user: UserId, taskId: TaskId, now: int, j: int)
    requires StopTimer(s, user, taskId, now).Ok?
    requires 0 <= j < |s.logs| && !OpenFor(s.logs[j], user, taskId)
    ensures StopTimer(s, user, taskId, now).store.logs[j] == s.logs[j]
  {
  }

  /** No two open logs share a (user, task) pair. */
  predicate AtMostOneOpen(logs: seq<TimeLog>) {
    forall i, j :: 0 <= i < j < |logs| && logs[i].IsOpen() && logs[j].IsOpen() ==>
      logs[i].user != logs[j].user || logs[i].task != logs[j].task
  }

  /** A second start on the same task, before any stop, is refused. */
  lemma StartTwiceConflicts(s: Store, user: UserId, taskId: TaskId, now: int, later: int)
    requires StartTimer(s, user, taskId, now).Ok?
    ensures StartTimer(StartTimer(s, user, taskId, now).store, user, taskId, later) == Err(TimerAlreadyRunning)
  {
    var s' := StartTimer(s, user, taskId, now).store;
    assert OpenFor(s'.logs[|s.logs|], user, taskId);
  }

  /** Once a stop has succeeded, stopping the same task again finds no running timer. */
  lemma StopTwiceFails(s: Store, user: UserId, taskId: TaskId, now: int, later: int)
    requires AtMostOneOpen(s.logs)
    requires StopTimer(s, user, taskId, now).Ok?
    ensures StopTimer(StopTimer(s, user, taskId, now).store, user, taskId, later) == Err(NoRunningTimer)
  {
    var r := StopTimer(s, user, taskId, now);
    var k :| 0 <= k < |s.logs| && OpenFor(s.logs[k], user, taskId) && r.store.logs == s.logs[k := r.log];
    forall j | 0 <= j < |r.store.logs|
      ensures !OpenFor(r.store.logs[j], user, taskId)
    {
      if j != k {
        assert r.store.logs[j] == s.logs[j];
      }
    }
  }

  /** A successful start keeps at most one open log per (user, task). */
  lemma StartKeepsAtMostOneOpen(s: Store, user: UserId, taskId: TaskId, now: int)
    requires AtMostOneOpen(s.logs)
    requires StartTimer(s, user, taskId, now).Ok?
    ensures AtMostOneOpen(StartTimer(s, user, taskId, now).store.logs)
  {
    var logs := StartTimer(s, user, taskId, now).store.logs;
    forall i, j | 0 <= i < j < |logs| && logs[i].IsOpen() && logs[j].IsOpen()
      ensures logs[i].user != logs[j].user || logs[i].task != logs[j].task
    {
      if j == |s.logs| {
        assert logs[i] == s.logs[i];
      }
    }
  }

  /** A successful stop keeps at most one open log per (user, task). */
  lemma StopKeepsAtMostOneOpen(s: Store, user: UserId, taskId: TaskId, now: int)
    requires AtMostOneOpen(s.logs)
    requires StopTimer(s, user, taskId, now).Ok?
    ensures AtMostOneOpen(StopTimer(s, user, taskId, now).store.logs)
  {
    var r := StopTimer(s, user, taskId, now);
    var k :| 0 <= k < |s.logs| && OpenFor(s.logs[k], user, taskId) && r.store.logs == s.logs[k := r.log];
    var logs := r.store.logs;
    forall i, j | 0 <= i < j < |logs| && logs[i].IsOpen() && logs[j].IsOpen()
      ensures logs[i].user != logs[j].user || logs[i].task != logs[j].task
    {
      assert i != k && j != k;
      assert logs[i] == s.logs[i] && logs[j] == s.logs[j];
    }
  }

  /** A request to either timer endpoint. */
  datatype Request =
    | StartRequest(user: UserId, taskId: TaskId, now: int)
    | StopRequest(user: UserId, taskId: TaskId, now: int)

  /** The store after one request; a refused request leaves it unchanged. */
  function Apply(s: Store, q: Request): Store {
    var r := match q
      case StartRequest(user, taskId, now) => StartTimer(s, user, taskId, now)
      case StopRequest(user, taskId, now) => StopTimer(s, user, taskId, now);
    if r.Ok? then r.store else s
  }

  /** The store after requests handled one after another. */
  function Run(s: Store, qs: seq<Request>): Store
    decreases |qs|
  {
    if |qs| == 0 then s else Run(Apply(s, qs[0]), qs[1..])
  }

  /** Handled one at a time, any sequence of start and stop requests keeps at
      most one open log per (user, task); from an empty store, or any store
      that already satisfies it. */
  lemma {:induction false} RunKeepsAtMostOneOpen(s: Store, qs: seq<Request>)
    requires AtMostOneOpen(s.logs)
    ensures AtMostOneOpen(Run(s, qs).logs)
    decreases |qs|
  {
    if |qs| > 0 {
      match qs[0] {
        case StartRequest(user, taskId, now) =>
          if StartTimer(s, user, taskId, now).Ok? {
            StartKeepsAtMostOneOpen(s, user, taskId, now);
          }
        case StopRequest(user, taskId, now) =>
          if StopTimer(s, user, taskId, now).Ok? {
            StopKeepsAtMostOneOpen(s, user, taskId, now);
          }
      }
      RunKeepsAtMostOneOpen(Apply(s, qs[0]), qs[1..]);
    }
  }

  /** Whether a log belongs in the answer to GET /timelogs: the requester's own,
      and on the given task when a non-empty `taskId` query parameter is present. */
  predicate Listed(l: TimeLog, user: UserId, taskFilter: Option<TaskId>) {
    l.user == user && (taskFilter.None? || taskFilter.value == "" || l.task == taskFilter.value)
  }

  function StartTime(l: TimeLog): int {
    l.startTime
  }

  /** GET /timelogs: the listed logs, latest start first. */
  function GetLogs(s: Store, user: UserId, taskFilter: Option<TaskId>): (r: seq<TimeLog>)
    ensures SortedDesc(r, StartTime)
    ensures forall l :: multiset(r)[l] == if Listed(l, user, taskFilter) then multiset(s.logs)[l] else 0
  {
    var p := (l: TimeLog) => Listed(l, user, taskFilter);
    var kept := Filter(s.logs, p);
    forall l ensures multiset(kept)[l] == if p(l) then multiset(s.logs)[l] else 0 {
      FilterMultiplicity(s.logs, p, l);
    }
    SortDesc(kept, StartTime)
  }

  /** `v` shows one of the requester's stored logs that the listing selects. */
  predicate ListedView(s: Store, user: UserId, taskFilter: Option<TaskId>, v: LogView) {
    exists k :: 0 <= k < |s.logs| && Listed(s.logs[k], user, taskFilter)
                && v.startTime == s.logs[k].startTime && v.endTime == s.logs[k].endTime
                && v.duration == s.logs[k].duration
  }

  /** Every log the listing returns is one of the requester's stored logs. */
  lemma ListedLogsFromStore(s: Store, user: UserId, taskFilter: Option<TaskId>)
    ensures forall i :: 0 <= i < |GetLogs(s, user, taskFilter)| ==>
              Listed(GetLogs(s, user, taskFilter)[i], user, taskFilter) && GetLogs(s, user, taskFilter)[i] in s.logs
  {
    var logs := GetLogs(s, user, taskFilter);
    forall i | 0 <= i < |logs|
      ensures Listed(logs[i], user, taskFilter) && logs[i] in s.logs
    {
      assert logs[i] in multiset(logs);
    }
  }

  /** Populating a sorted selection of the requester's stored logs, one by one,
      keeps the order, the owner and the stored times, and leaves no bare task id. */
  lemma PopulatedViewsListed(s: Store, user: UserId, taskFilter: Option<TaskId>, logs: seq<TimeLog>, r: seq<LogView>)
    requires |r| == |logs|
    requires SortedDesc(logs, StartTime)
    requires forall i :: 0 <= i < |logs| ==> Listed(logs[i], user, taskFilter) && logs[i] in s.logs
    requires forall i :: 0 <= i < |r| ==> r[i] == AsPopulated(logs[i], s.tasks)
    ensures forall i :: 0 <= i < |r| ==> r[i].user == user && !r[i].task.IdRef?
    ensures forall i :: 0 <= i < |r| ==> ListedView(s, user, taskFilter, r[i])
    ensures forall i, j :: 0 <= i < j < |r| ==> r[i].startTime >= r[j].startTime
  {
    forall i | 0 <= i < |r|
      ensures ListedView(s, user, taskFilter, r[i])
    {
      var k :| 0 <= k < |s.logs| && s.logs[k] == logs[i];
    }
    forall i, j | 0 <= i < j < |r|
      ensures r[i].startTime >= r[j].startTime
    {
      assert StartTime(logs[i]) >= StartTime(logs[j]);
    }
  }

  /** `populate('task', 'title')` over a list of logs, one by one. */
  function PopulateAll(logs: seq<TimeLog>, tasks: seq<Task>): (r: seq<LogView>)
    ensures |r| == |logs|
    ensures forall i :: 0 <= i < |r| ==> r[i] == AsPopulated(logs[i], tasks)
  {
    seq(|logs|, i requires 0 <= i < |logs| => AsPopulated(logs[i], tasks))
  }

  /** The JSON body of GET /timelogs: each listed log with its task populated,
      so the requester's own logs, latest start first, none with a bare task id. */
  function ListResponse(s: Store, user: UserId, taskFilter: Option<TaskId>): (r: seq<LogView>)
    ensures |r| == |GetLogs(s, user, taskFilter)|
    ensures forall i :: 0 <= i < |r| ==> r[i] == AsPopulated(GetLogs(s, user, taskFilter)[i], s.tasks)
    ensures forall i :: 0 <= i < |r| ==> r[i].user == user && !r[i].task.IdRef?
    ensures forall i :: 0 <= i < |r| ==> ListedView(s, user, taskFilter, r[i])
    ensures forall i, j :: 0 <= i < j < |r| ==> r[i].startTime >= r[j].startTime
  {
    var logs := GetLogs(s, user, taskFilter);
    var r := PopulateAll(logs, s.tasks);
    ListedLogsFromStore(s, user, taskFilter);
    PopulatedViewsListed(s, user, taskFilter, logs, r);
    r
  }
}
