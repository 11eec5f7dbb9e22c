/**
 * The records of the task tracker: tasks, their work sessions and their five statuses.
 * Timestamps are integers in milliseconds; calendar dates are day keys, the number of days
 * since 1970-01-01 of the date they name.
 */
module Model {
  import opened Wrappers

  type TaskId = int
  type DayKey = int

  /** 未着手, 作業中, 中断中, 待ち, 完了. */
  datatype Status = NotStarted | Working | Paused | Waiting | Done

  /** The status string stored in a task record. */
  function StatusLabel(s: Status): string
  {
    match s
    case NotStarted => "未着手"
    case Working => "作業中"
    case Paused => "中断中"
    case Waiting => "待ち"
    case Done => "完了"
  }

  /** Distinct statuses are stored as distinct strings, so comparing labels compares statuses. */
  lemma StatusLabelInjective(s: Status, t: Status)
    ensures StatusLabel(s) == StatusLabel(t) ==> s == t
  {
  }

  /** A routine template: the weekday names it is scheduled on, as `'月'` … `'日'`. */
  datatype Routine = Routine(id: int, name: string, memo: string, estimatedMinutes: int, tag: string, days: seq<string>)

  /** One interval of work: `end` is `null` while the session is open. */
  datatype Session = Session(start: int, end: Option<int>, taskId: TaskId)

  datatype Task = Task(
    id: TaskId,
    name: string,
    memo: string,
    tag: string,
    status: Status,
    statusComment: string,
    registeredDate: DayKey,
    workDates: seq<DayKey>,
    completedDate: Option<DayKey>,
    accumulatedTime: int,
    startedAt: Option<int>,
    workSessions: seq<Session>,
    estimatedMinutes: int,
    order: Option<int>)

  /** JavaScript truthiness of a number-or-null field: `null` and `0` are falsy. */
  predicate Truthy(x: Option<int>)
  {
    x.Some? && x.value != 0
  }

  /** `task.order || 0`. */
  function OrderOf(t: Task): (r: int)
    ensures t.order.Some? ==> r == t.order.value
    ensures t.order.None? ==> r == 0
  {
    t.order.GetOr(0)
  }

  /** The sort key of every session list: `a.start - b.start`. */
  function StartOf(s: Session): int
  {
    s.start
  }

  predicate IsDone(t: Task)
  {
    t.status == Done
  }

  /** No two tasks share an id (ids are `Date.now() + Math.random()`). */
  ghost predicate UniqueIds(tasks: seq<Task>)
  {
    forall i, j :: 0 <= i < j < |tasks| ==> tasks[i].id != tasks[j].id
  }

  /** A fresh task as `registerTasks` and `addManualTask` create it. */
  function NewTask(id: TaskId, name: string, memo: string, tag: string, today: DayKey, order: int): (t: Task)
    ensures t.status == NotStarted && t.workSessions == [] && t.accumulatedTime == 0
    ensures t.startedAt == None && t.completedDate == None && t.workDates == []
    ensures t.id == id && t.name == name && t.memo == memo && t.tag == tag
    ensures t.registeredDate == today && OrderOf(t) == order
  {
    Task(id, name, memo, tag, NotStarted, "", today, [], None, 0, None, [], 0, Some(order))
  }
}
