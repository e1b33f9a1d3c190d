/** The daily summary page's statistics: the tasks created and the logs started
    within one day, the minutes logged, and the tasks per status. The bounds of
    the day are inputs, in integer milliseconds. */
module DailySummary {
  import opened Wrappers
  import opened Seqs
  import opened Text
  import opened Model

  /** Both bounds inclusive: `startOfDay <= t <= endOfDay`. */
  predicate InDay(t: int, startOfDay: int, endOfDay: int) {
    startOfDay <= t && t <= endOfDay
  }

  /** The tasks created within the day, in the order listed. */
  function TodayTasks(tasks: seq<Task>, startOfDay: int, endOfDay: int): (r: seq<Task>)
    ensures forall i :: 0 <= i < |r| ==> r[i] in tasks && InDay(r[i].createdAt, startOfDay, endOfDay)
    ensures forall i :: 0 <= i < |tasks| && InDay(tasks[i].createdAt, startOfDay, endOfDay) ==> tasks[i] in r
  {
    Filter(tasks, (t: Task) => InDay(t.createdAt, startOfDay, endOfDay))
  }

  /** The logs started within the day, in the order listed. */
  function TodayLogs(logs: seq<LogView>, startOfDay: int, endOfDay: int): (r: seq<LogView>)
    ensures forall i :: 0 <= i < |r| ==> r[i] in logs && InDay(r[i].startTime, startOfDay, endOfDay)
    ensures forall i :: 0 <= i < |logs| && InDay(logs[i].startTime, startOfDay, endOfDay) ==> logs[i] in r
  {
    Filter(logs, (l: LogView) => InDay(l.startTime, startOfDay, endOfDay))
  }

  /** The day filters keep relative order: a list's front and back are filtered independently. */
  lemma TodayFiltersKeepOrder(t1: seq<Task>, t2: seq<Task>, l1: seq<LogView>, l2: seq<LogView>, startOfDay: int, endOfDay: int)
    ensures TodayTasks(t1 + t2, startOfDay, endOfDay) == TodayTasks(t1, startOfDay, endOfDay) + TodayTasks(t2, startOfDay, endOfDay)
    ensures TodayLogs(l1 + l2, startOfDay, endOfDay) == TodayLogs(l1, startOfDay, endOfDay) + TodayLogs(l2, startOfDay, endOfDay)
  {
    FilterConcat(t1, t2, (t: Task) => InDay(t.createdAt, startOfDay, endOfDay));
    FilterConcat(l1, l2, (l: LogView) => InDay(l.startTime, startOfDay, endOfDay));
  }

  /** A log's contribution to the total: `log.duration || 0`. */
  function LoggedMinutes(l: LogView): int {
    l.duration.GetOr(0)
  }

  /** The running sum `reduce((sum, log) => sum + (log.duration || 0), 0)`. */
  function TotalTime(logs: seq<LogView>): (t: int)
    ensures (forall i :: 0 <= i < |logs| ==> LoggedMinutes(logs[i]) >= 0) ==> t >= 0
    ensures (forall i :: 0 <= i < |logs| ==> logs[i].duration.None?) ==> t == 0
  {
    if |logs| == 0 then 0
    else
      assert forall i :: 0 <= i < |logs[1..]| ==> logs[1..][i] == logs[i + 1];
      LoggedMinutes(logs[0]) + TotalTime(logs[1..])
  }

  /** The total splits over any division of the list. */
  lemma {:induction false} TotalTimeConcat(a: seq<LogView>, b: seq<LogView>)
    ensures TotalTime(a + b) == TotalTime(a) + TotalTime(b)
  {
    if |a| == 0 {
      assert a + b == b;
    } else {
      assert (a + b)[0] == a[0];
      assert (a + b)[1..] == a[1..] + b;
      TotalTimeConcat(a[1..], b);
    }
  }

  /** Running logs add nothing: the total is the same over the logs that carry a duration. */
  lemma {:induction false} TotalTimeIgnoresRunning(logs: seq<LogView>)
    ensures TotalTime(logs) == TotalTime(Filter(logs, (l: LogView) => l.duration.Some?))
  {
    if |logs| > 0 {
      TotalTimeIgnoresRunning(logs[1..]);
    }
  }

  /** Durations of 30 and 45 minutes and one running log total 75 minutes. */
  lemma TotalTimeExample(a: LogView, b: LogView, c: LogView)
    requires a.duration == Some(30) && b.duration == Some(45) && c.duration == None
    ensures TotalTime([a, b, c]) == 75
  {
    assert [a, b, c][1..] == [b, c];
    assert [b, c][1..] == [c];
    assert [c][1..] == [];
    assert TotalTime([c]) == 0;
  }

  /** `tasks.filter(task => task.status === status).length`. */
  function CountStatus(tasks: seq<Task>, status: string): (n: nat)
    ensures n <= |tasks|
  {
    |Filter(tasks, (t: Task) => t.status == status)|
  }

  /** Counting one task at a time: none in an empty list, and the front task
      adds one exactly when its status is the one counted. */
  lemma CountStatusSteps(t: Task, tasks: seq<Task>, status: string)
    ensures CountStatus([], status) == 0
    ensures CountStatus([t] + tasks, status) == CountStatus(tasks, status) + (if t.status == status then 1 else 0)
  {
    assert ([t] + tasks)[1..] == tasks;
  }

  predicate KnownStatus(status: string) {
    status == Completed || status == Pending || status == InProgress
  }

  /** The three counts never exceed the number of tasks, and they add up to it
      exactly when every task carries one of the three statuses. */
  lemma {:induction false} StatusCountsCover(tasks: seq<Task>)
    ensures CountStatus(tasks, Completed) + CountStatus(tasks, Pending) + CountStatus(tasks, InProgress) <= |tasks|
    ensures CountStatus(tasks, Completed) + CountStatus(tasks, Pending) + CountStatus(tasks, InProgress) == |tasks|
            <==> forall i :: 0 <= i < |tasks| ==> KnownStatus(tasks[i].status)
  {
    if |tasks| > 0 {
      StatusCountsCover(tasks[1..]);
      if !KnownStatus(tasks[0].status) {
        assert !(forall i :: 0 <= i < |tasks| ==> KnownStatus(tasks[i].status));
      }
      if forall i :: 0 <= i < |tasks[1..]| ==> KnownStatus(tasks[1..][i].status) {
        if KnownStatus(tasks[0].status) {
          forall i | 0 <= i < |tasks|
            ensures KnownStatus(tasks[i].status)
          {
            if i > 0 {
              assert tasks[i] == tasks[1..][i - 1];
            }
          }
        }
      } else {
        var i :| 0 <= i < |tasks[1..]| && !KnownStatus(tasks[1..][i].status);
        assert tasks[i + 1] == tasks[1..][i];
      }
    }
  }

  /** Statuses Pending, Completed, Completed count two completed, one pending, none in progress. */
  lemma StatusCountExample(a: Task, b: Task, c: Task)
    requires a.status == Pending && b.status == Completed && c.status == Completed
    ensures CountStatus([a, b, c], Completed) == 2
    ensures CountStatus([a, b, c], Pending) == 1
    ensures CountStatus([a, b, c], InProgress) == 0
  {
    assert Pending != Completed && Pending != InProgress && Completed != InProgress by {
      assert Pending[0] != Completed[0] && Pending[0] != InProgress[0] && Completed[0] != InProgress[0];
    }
    assert [a, b, c][1..] == [b, c];
    assert [b, c][1..] == [c];
    assert [c][1..] == [];
    var done := (t: Task) => t.status == Completed;
    assert Filter([c], done) == [c] + Filter([], done);
    assert Filter([b, c], done) == [b] + Filter([c], done);
    assert Filter([a, b, c], done) == [b, c];
    var waiting := (t: Task) => t.status == Pending;
    assert Filter([b, c], waiting) == [];
    assert Filter([a, b, c], waiting) == [a];
  }

  datatype Stats = Stats(totalTime: int, completedTasks: nat, pendingTasks: nat, inProgressTasks: nat)

  /** The statistics `fetchDailyData` computes from the fetched tasks and logs:
      each count is the number of the day's tasks with exactly that status, the
      total is the minutes logged by the day's logs. */
  function ComputeStats(tasks: seq<Task>, logs: seq<LogView>, startOfDay: int, endOfDay: int): (st: Stats)
    ensures st.completedTasks == CountStatus(TodayTasks(tasks, startOfDay, endOfDay), Completed)
    ensures st.pendingTasks == CountStatus(TodayTasks(tasks, startOfDay, endOfDay), Pending)
    ensures st.inProgressTasks == CountStatus(TodayTasks(tasks, startOfDay, endOfDay), InProgress)
    ensures st.totalTime == TotalTime(TodayLogs(logs, startOfDay, endOfDay))
    ensures st.completedTasks + st.pendingTasks + st.inProgressTasks <= |TodayTasks(tasks, startOfDay, endOfDay)|
    ensures var today := TodayTasks(tasks, startOfDay, endOfDay);
            (forall i :: 0 <= i < |today| ==> KnownStatus(today[i].status))
            ==> st.completedTasks + st.pendingTasks + st.inProgressTasks == |today|
    ensures (forall i :: 0 <= i < |logs| ==> LoggedMinutes(logs[i]) >= 0) ==> st.totalTime >= 0
  {
    var today := TodayTasks(tasks, startOfDay, endOfDay);
    var todayLogs := TodayLogs(logs, startOfDay, endOfDay);
    StatusCountsCover(today);
    assert (forall i :: 0 <= i < |logs| ==> LoggedMinutes(logs[i]) >= 0)
           ==> forall i :: 0 <= i < |todayLogs| ==> LoggedMinutes(todayLogs[i]) >= 0;
    Stats(TotalTime(todayLogs), CountStatus(today, Completed), CountStatus(today, Pending), CountStatus(today, InProgress))
  }

  /** The page's `formatTime(minutes)`: `"<h>h <m>m"`, hours always shown. For
      a non-negative count the text reads back as the same count. */
  function FormatTime(minutes: int): (r: string)
    ensures minutes >= 0 ==> ParseHoursMinutes(r) == Some(minutes)
    ensures minutes >= 0 ==> exists h: nat, m: nat :: m < 60 && 60 * h + m == minutes &&
                                r == NatToString(h) + "h " + NatToString(m) + "m"
  {
    var (h, m) := HoursAndMinutes(minutes);
    var text := IntToString(h) + "h " + IntToString(m) + "m";
    if minutes >= 0 then ReadHoursMinutes(h, m); text else text
  }
}
