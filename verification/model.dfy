/** The records the time-tracking server stores and the web client receives.
    Instants are integer milliseconds since the epoch; ids are strings. */
module Model {
  import opened Wrappers
  import opened Seqs

  type UserId = string
  type TaskId = string

  /** A task owned by one user. `status` is free text on the client side;
      the three values the interface offers are the constants below. */
  datatype Task = Task(
    id: TaskId,
    user: UserId,
    title: string,
    description: Option<string>,
    status: string,
    createdAt: int)

  const Pending: string := "Pending"
  const InProgress: string := "In Progress"
  const Completed: string := "Completed"

  /** A stored time log. `endTime == None` marks an open log, the running timer;
      `duration` is in minutes and is set together with `endTime`. */
  datatype TimeLog = TimeLog(
    user: UserId,
    task: TaskId,
    startTime: int,
    endTime: Option<int>,
    duration: Option<int>)
  {
    predicate IsOpen() {
      endTime.None?
    }
  }

  /** What a log's `task` field holds once the server has serialised it:
      the bare id it stores, the `{_id, title}` object that `populate('task', 'title')`
      puts in its place, or `null` when populate finds no such task. */
  datatype TaskRef = IdRef(id: TaskId) | PopulatedRef(id: TaskId, title: string) | NullRef

  /** A time log as the client receives it. */
  datatype LogView = LogView(
    user: UserId,
    task: TaskRef,
    startTime: int,
    endTime: Option<int>,
    duration: Option<int>)

  /** The JSON of a log returned straight after `create` or `save`. */
  function AsStored(l: TimeLog): (v: LogView)
    ensures v.task == IdRef(l.task)
    ensures v.user == l.user && v.startTime == l.startTime
    ensures v.endTime == l.endTime && v.duration == l.duration
  {
    LogView(l.user, IdRef(l.task), l.startTime, l.endTime, l.duration)
  }

  /** The JSON of a log after `populate('task', 'title')`: the task is looked up by id alone. */
  function AsPopulated(l: TimeLog, tasks: seq<Task>): (v: LogView)
    ensures v.task.PopulatedRef? ==> v.task.id == l.task
    ensures v.task.PopulatedRef? ==> exists i :: 0 <= i < |tasks| && tasks[i].id == l.task
                                                && v.task.title == tasks[i].title
                                                && forall j :: 0 <= j < i ==> tasks[j].id != l.task
    ensures v.task.NullRef? <==> forall i :: 0 <= i < |tasks| ==> tasks[i].id != l.task
    ensures !v.task.IdRef?
    ensures v.user == l.user && v.startTime == l.startTime
    ensures v.endTime == l.endTime && v.duration == l.duration
  {
    var ref := match Find(tasks, (t: Task) => t.id == l.task)
      case Some(t) => PopulatedRef(t.id, t.title)
      case None => NullRef;
    LogView(l.user, ref, l.startTime, l.endTime, l.duration)
  }
}
