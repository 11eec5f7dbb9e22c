/**
 * The task lifecycle of src/App.jsx: start, pause, wait and complete as whole-collection maps,
 * the field editors, deletion, session replacement and registration of extracted tasks.
 *
 * `Inv` is the invariant the timer relies on: ids are unique, at most one task is 作業中, and
 * in every task the accumulated seconds, `startedAt` and the session list agree.
 */
module Tasks {
  import opened Wrappers
  import opened Collections
  import opened Model
  import opened Formatters

  /** `t.startedAt ? Math.floor((now - t.startedAt) / 1000) : 0`. */
  function ElapsedSinceStart(t: Task, now: int): int
  {
    if Truthy(t.startedAt) then (now - t.startedAt.value) / 1000 else 0
  }

  /** The session list with its last entry closed at `now` when that entry has no end. */
  function CloseLast(ws: seq<Session>, now: int): (r: seq<Session>)
    ensures |r| == |ws|
    ensures forall k :: 0 <= k < |ws| - 1 ==> r[k] == ws[k]
    ensures |ws| > 0 && Truthy(ws[|ws| - 1].end) ==> r == ws
    ensures |ws| > 0 && !Truthy(ws[|ws| - 1].end) ==> r[|ws| - 1] == ws[|ws| - 1].(end := Some(now))
  {
    if |ws| == 0 || Truthy(ws[|ws| - 1].end) then ws
    else ws[..|ws| - 1] + [ws[|ws| - 1].(end := Some(now))]
  }

  /** The common part of pause, wait, complete and the implicit pause in start. */
  function Suspend(t: Task, status: Status, now: int): (r: Task)
    ensures r.status == status && r.startedAt == None
    ensures r.accumulatedTime == t.accumulatedTime + ElapsedSinceStart(t, now)
    ensures r.workSessions == CloseLast(t.workSessions, now)
    ensures r.(status := t.status, accumulatedTime := t.accumulatedTime, startedAt := t.startedAt,
               workSessions := t.workSessions) == t
  {
    t.(status := status, accumulatedTime := t.accumulatedTime + ElapsedSinceStart(t, now),
       startedAt := None, workSessions := CloseLast(t.workSessions, now))
  }

  /** The target of `startTask`: working from `now` in a new open session, today recorded once. */
  function Resume(t: Task, now: int, today: DayKey): (r: Task)
    ensures r.status == Working && r.startedAt == Some(now) && r.completedDate == None
    ensures r.workSessions == t.workSessions + [Session(now, None, t.id)]
    ensures today in r.workDates && (today in t.workDates ==> r.workDates == t.workDates)
    ensures today !in t.workDates ==> r.workDates == t.workDates + [today]
    ensures r.accumulatedTime == t.accumulatedTime && r.id == t.id
  {
    t.(status := Working, startedAt := Some(now),
       workDates := if today in t.workDates then t.workDates else t.workDates + [today],
       completedDate := None, workSessions := t.workSessions + [Session(now, None, t.id)])
  }

  function StartOne(t: Task, id: TaskId, now: int, today: DayKey): Task
  {
    if t.id != id && t.status == Working then Suspend(t, Paused, now)
    else if t.id == id then Resume(t, now, today)
    else t
  }

  /** `startTask(id)`: every other working task is paused, then the target starts. */
  function StartTask(tasks: seq<Task>, id: TaskId, now: int, today: DayKey): (r: seq<Task>)
    ensures |r| == |tasks|
    ensures forall i :: 0 <= i < |tasks| ==> r[i].id == tasks[i].id
    ensures forall i :: 0 <= i < |tasks| && tasks[i].id == id ==> r[i] == Resume(tasks[i], now, today)
    ensures forall i :: 0 <= i < |tasks| && tasks[i].id != id && tasks[i].status == Working ==>
              r[i] == Suspend(tasks[i], Paused, now)
    ensures forall i :: 0 <= i < |tasks| && tasks[i].id != id && tasks[i].status != Working ==> r[i] == tasks[i]
  {
    seq(|tasks|, i requires 0 <= i < |tasks| => StartOne(tasks[i], id, now, today))
  }

  /** `pauseTask(id)`: the matching task becomes 中断中; no other task changes. */
  function PauseTask(tasks: seq<Task>, id: TaskId, now: int): (r: seq<Task>)
    ensures |r| == |tasks|
    ensures forall i :: 0 <= i < |tasks| ==> r[i] == if tasks[i].id == id then Suspend(tasks[i], Paused, now) else tasks[i]
  {
    seq(|tasks|, i requires 0 <= i < |tasks| => if tasks[i].id == id then Suspend(tasks[i], Paused, now) else tasks[i])
  }

  /** `waitTask(id)`: the matching task becomes 待ち; no other task changes. */
  function WaitTask(tasks: seq<Task>, id: TaskId, now: int): (r: seq<Task>)
    ensures |r| == |tasks|
    ensures forall i :: 0 <= i < |tasks| ==> r[i] == if tasks[i].id == id then Suspend(tasks[i], Waiting, now) else tasks[i]
  {
    seq(|tasks|, i requires 0 <= i < |tasks| => if tasks[i].id == id then Suspend(tasks[i], Waiting, now) else tasks[i])
  }

  /** `completeTask(id)`: the matching task becomes 完了 with `completedDate` today; no other task changes. */
  function CompleteTask(tasks: seq<Task>, id: TaskId, now: int, today: DayKey): (r: seq<Task>)
    ensures |r| == |tasks|
    ensures forall i :: 0 <= i < |tasks| ==> r[i] == if tasks[i].id == id
              then Suspend(tasks[i], Done, now).(completedDate := Some(today)) else tasks[i]
  {
    seq(|tasks|, i requires 0 <= i < |tasks| =>
      if tasks[i].id == id then Suspend(tasks[i], Done, now).(completedDate := Some(today)) else tasks[i])
  }

  // ------------------------------------------------------------------ invariant

  ghost predicate AtMostOneWorking(tasks: seq<Task>)
  {
    forall i, j :: 0 <= i < j < |tasks| ==> !(tasks[i].status == Working && tasks[j].status == Working)
  }

  /**
   * The timing fields of a task agree with its sessions: the accumulated seconds are the closed
   * sessions' total, only the last session may be open, it is open exactly while the task is
   * 作業中 with a truthy `startedAt`, and then it started at `startedAt`.
   */
  ghost predicate TaskConsistent(t: Task)
  {
    var ws := t.workSessions;
    t.accumulatedTime == SumClosed(ws)
    && (forall k :: 0 <= k < |ws| - 1 ==> Truthy(ws[k].end))
    && (t.status == Working <==> Truthy(t.startedAt))
    && (Truthy(t.startedAt) <==> |ws| > 0 && !Truthy(ws[|ws| - 1].end))
    && (Truthy(t.startedAt) ==> ws[|ws| - 1].start == t.startedAt.value)
  }

  ghost predicate Inv(tasks: seq<Task>)
  {
    UniqueIds(tasks) && AtMostOneWorking(tasks) && forall i :: 0 <= i < |tasks| ==> TaskConsistent(tasks[i])
  }

  /** Suspending a consistent task at a positive time folds the open session into the total. */
  lemma SuspendConsistent(t: Task, status: Status, now: int)
    requires TaskConsistent(t) && status != Working && now > 0
    ensures TaskConsistent(Suspend(t, status, now))
  {
    var ws := t.workSessions;
    var r := Suspend(t, status, now);
    if |ws| > 0 && !Truthy(ws[|ws| - 1].end) {
      var last := ws[|ws| - 1];
      assert ws == ws[..|ws| - 1] + [last];
      SumClosedAppend(ws[..|ws| - 1], last);
      SumClosedAppend(ws[..|ws| - 1], last.(end := Some(now)));
      assert r.workSessions == ws[..|ws| - 1] + [last.(end := Some(now))];
    }
  }

  /** Starting a consistent task that is not working opens exactly one session. */
  lemma ResumeConsistent(t: Task, now: int, today: DayKey)
    requires TaskConsistent(t) && t.status != Working && now > 0
    ensures TaskConsistent(Resume(t, now, today))
  {
    SumClosedAppend(t.workSessions, Session(now, None, t.id));
  }

  /** Starting a task preserves the invariant and leaves the target as the only working task. */
  lemma StartTaskPreservesInv(tasks: seq<Task>, id: TaskId, now: int, today: DayKey)
    requires Inv(tasks) && now > 0
    requires forall i :: 0 <= i < |tasks| && tasks[i].id == id ==> tasks[i].status != Working
    ensures Inv(StartTask(tasks, id, now, today))
    ensures forall i :: 0 <= i < |tasks| ==> (StartTask(tasks, id, now, today)[i].status == Working <==> tasks[i].id == id)
  {
    var r := StartTask(tasks, id, now, today);
    forall i | 0 <= i < |tasks| ensures TaskConsistent(r[i]) {
      if tasks[i].id == id {
        ResumeConsistent(tasks[i], now, today);
      } else if tasks[i].status == Working {
        SuspendConsistent(tasks[i], Paused, now);
      }
    }
  }

  lemma PauseTaskPreservesInv(tasks: seq<Task>, id: TaskId, now: int)
    requires Inv(tasks) && now > 0
    ensures Inv(PauseTask(tasks, id, now))
    ensures forall i :: 0 <= i < |tasks| && tasks[i].id == id ==> PauseTask(tasks, id, now)[i].status == Paused
  {
    var r := PauseTask(tasks, id, now);
    forall i | 0 <= i < |tasks| && tasks[i].id == id ensures TaskConsistent(r[i]) {
      SuspendConsistent(tasks[i], Paused, now);
    }
  }

  lemma WaitTaskPreservesInv(tasks: seq<Task>, id: TaskId, now: int)
    requires Inv(tasks) && now > 0
    ensures Inv(WaitTask(tasks, id, now))
    ensures forall i :: 0 <= i < |tasks| && tasks[i].id == id ==> WaitTask(tasks, id, now)[i].status == Waiting
  {
    var r := WaitTask(tasks, id, now);
    forall i | 0 <= i < |tasks| && tasks[i].id == id ensures TaskConsistent(r[i]) {
      SuspendConsistent(tasks[i], Waiting, now);
    }
  }

  lemma CompleteTaskPreservesInv(tasks: seq<Task>, id: TaskId, now: int, today: DayKey)
    requires Inv(tasks) && now > 0
    ensures Inv(CompleteTask(tasks, id, now, today))
    ensures forall i :: 0 <= i < |tasks| && tasks[i].id == id ==>
              CompleteTask(tasks, id, now, today)[i].status == Done
              && CompleteTask(tasks, id, now, today)[i].completedDate == Some(today)
  {
    var r := CompleteTask(tasks, id, now, today);
    forall i | 0 <= i < |tasks| && tasks[i].id == id ensures TaskConsistent(r[i]) {
      SuspendConsistent(tasks[i], Done, now);
    }
  }

  /**
   * Why start needs its precondition: restarting a task that is already working leaves its
   * previous session open and not last, so the task is no longer consistent.
   */
  lemma StartOnWorkingTargetBreaksConsistency(tasks: seq<Task>, i: nat, now: int, today: DayKey)
    requires i < |tasks| && TaskConsistent(tasks[i]) && tasks[i].status == Working
    ensures !TaskConsistent(StartTask(tasks, tasks[i].id, now, today)[i])
  {
    var ws := StartTask(tasks, tasks[i].id, now, today)[i].workSessions;
    assert ws[|ws| - 2] == tasks[i].workSessions[|tasks[i].workSessions| - 1];
  }

  // ------------------------------------------------------------ field edits

  /** The fields the task card edits through `updateTask(id, field, value)`. */
  datatype Edit = SetName(name: string) | SetMemo(memo: string) | SetEstimatedMinutes(minutes: int)
                | SetStatusComment(comment: string)

  /** One field takes the new value; the timer fields, the sessions and the identity are untouched. */
  function ApplyEdit(t: Task, e: Edit): (r: Task)
    ensures r.id == t.id && r.tag == t.tag && r.status == t.status && r.registeredDate == t.registeredDate
    ensures r.accumulatedTime == t.accumulatedTime && r.startedAt == t.startedAt && r.workSessions == t.workSessions
    ensures r.order == t.order && r.workDates == t.workDates && r.completedDate == t.completedDate
    ensures e.SetName? ==> r == t.(name := e.name)
    ensures e.SetMemo? ==> r == t.(memo := e.memo)
    ensures e.SetEstimatedMinutes? ==> r == t.(estimatedMinutes := e.minutes)
    ensures e.SetStatusComment? ==> r == t.(statusComment := e.comment)
  {
    match e
    case SetName(v) => t.(name := v)
    case SetMemo(v) => t.(memo := v)
    case SetEstimatedMinutes(v) => t.(estimatedMinutes := v)
    case SetStatusComment(v) => t.(statusComment := v)
  }

  /** `updateTask(id, field, value)`: only the matching task takes the new value. */
  function UpdateTask(tasks: seq<Task>, id: TaskId, e: Edit): (r: seq<Task>)
    ensures |r| == |tasks|
    ensures forall i :: 0 <= i < |tasks| ==> r[i] == if tasks[i].id == id then ApplyEdit(tasks[i], e) else tasks[i]
    ensures (forall i :: 0 <= i < |tasks| ==> tasks[i].id != id) ==> r == tasks
  {
    seq(|tasks|, i requires 0 <= i < |tasks| => if tasks[i].id == id then ApplyEdit(tasks[i], e) else tasks[i])
  }

  /** Field edits never touch the timing fields, so the invariant survives them. */
  lemma UpdateTaskPreservesInv(tasks: seq<Task>, id: TaskId, e: Edit)
    requires Inv(tasks)
    ensures Inv(UpdateTask(tasks, id, e))
  {
  }

  /** `deleteTask(id)`. */
  function DeleteTask(tasks: seq<Task>, id: TaskId): (r: seq<Task>)
    ensures forall i :: 0 <= i < |r| ==> r[i].id != id && r[i] in tasks
    ensures forall i :: 0 <= i < |tasks| && tasks[i].id != id ==> tasks[i] in r
    ensures (forall i :: 0 <= i < |tasks| ==> tasks[i].id != id) ==> r == tasks
  {
    var keep := (t: Task) => t.id != id;
    var r := Filter(tasks, keep);
    assert (forall i :: 0 <= i < |tasks| ==> tasks[i].id != id) ==> r == tasks by {
      if forall i :: 0 <= i < |tasks| ==> tasks[i].id != id {
        FilterAll(tasks, keep);
      }
    }
    r
  }

  lemma DeleteTaskPreservesInv(tasks: seq<Task>, id: TaskId)
    requires Inv(tasks)
    ensures Inv(DeleteTask(tasks, id))
  {
    var keep := (t: Task) => t.id != id;
    var r := DeleteTask(tasks, id);
    var distinct := (a: Task, b: Task) => a.id != b.id;
    var notBoth := (a: Task, b: Task) => !(a.status == Working && b.status == Working);
    assert Pairwise(tasks, distinct);
    assert Pairwise(tasks, notBoth);
    FilterPairwise(tasks, keep, distinct);
    FilterPairwise(tasks, keep, notBoth);
    assert Pairwise(r, distinct) && Pairwise(r, notBoth);
    forall i | 0 <= i < |r| ensures TaskConsistent(r[i]) {
      var k :| 0 <= k < |tasks| && tasks[k] == r[i];
    }
  }

  /** `updateSessions(taskId, newSessions, newAccumulatedTime)`. */
  function UpdateSessions(tasks: seq<Task>, id: TaskId, ws: seq<Session>, acc: int): (r: seq<Task>)
    ensures |r| == |tasks|
    ensures forall i :: 0 <= i < |tasks| ==>
              r[i] == if tasks[i].id == id then tasks[i].(workSessions := ws, accumulatedTime := acc) else tasks[i]
    ensures (forall i :: 0 <= i < |tasks| ==> tasks[i].id != id) ==> r == tasks
  {
    seq(|tasks|, i requires 0 <= i < |tasks| =>
      if tasks[i].id == id then tasks[i].(workSessions := ws, accumulatedTime := acc) else tasks[i])
  }

  /**
   * Handing a task that is not working a list of closed sessions, with the total
   * `recalculateAccumulatedTime` gives for it, keeps the invariant.
   */
  lemma UpdateSessionsPreservesInv(tasks: seq<Task>, id: TaskId, ws: seq<Session>)
    requires Inv(tasks)
    requires forall i :: 0 <= i < |tasks| && tasks[i].id == id ==> tasks[i].status != Working
    requires forall k :: 0 <= k < |ws| ==> Truthy(ws[k].end)
    ensures Inv(UpdateSessions(tasks, id, ws, SumClosed(ws)))
  {
    var r := UpdateSessions(tasks, id, ws, SumClosed(ws));
    forall i | 0 <= i < |tasks| && tasks[i].id == id ensures TaskConsistent(r[i]) {
      assert !Truthy(tasks[i].startedAt);
    }
  }

  // ------------------------------------------------------------- registration

  /** A task the extractor proposed, with its temporary id `tid`. */
  datatype Extracted = Extracted(name: string, tag: string, memo: string, tid: int)

  /** `Math.max(...ts.map(x => x.order || 0))`. */
  function MaxOrder(ts: seq<Task>): (m: int)
    requires |ts| > 0
    ensures forall i :: 0 <= i < |ts| ==> OrderOf(ts[i]) <= m
    ensures exists i :: 0 <= i < |ts| && OrderOf(ts[i]) == m
  {
    if |ts| == 1 then OrderOf(ts[0])
    else
      var rest := MaxOrder(ts[1..]);
      assert forall i :: 1 <= i < |ts| ==> ts[i] == ts[1..][i - 1];
      if OrderOf(ts[0]) >= rest then OrderOf(ts[0]) else rest
  }

  /** The largest order among the existing tasks of a tag, or -1 when it has none. */
  function MaxOrderOfTag(tasks: seq<Task>, tag: string): (m: int)
    ensures forall i :: 0 <= i < |tasks| && tasks[i].tag == tag ==> OrderOf(tasks[i]) <= m
    ensures (exists i :: 0 <= i < |tasks| && tasks[i].tag == tag) ==>
              exists i :: 0 <= i < |tasks| && tasks[i].tag == tag && OrderOf(tasks[i]) == m
    ensures (forall i :: 0 <= i < |tasks| ==> tasks[i].tag != tag) ==> m == -1
  {
    var tagTasks := Filter(tasks, (x: Task) => x.tag == tag);
    if |tagTasks| > 0 then
      var m := MaxOrder(tagTasks);
      assert forall i :: 0 <= i < |tasks| && tasks[i].tag == tag ==> tasks[i] in tagTasks;
      var j :| 0 <= j < |tagTasks| && OrderOf(tagTasks[j]) == m;
      assert tagTasks[j] in tasks;
      m
    else -1
  }

  /** The proposals not marked for deletion. */
  function Kept(extracted: seq<Extracted>, toDelete: set<int>): (r: seq<Extracted>)
    ensures forall k :: 0 <= k < |r| ==> r[k].tid !in toDelete && r[k] in extracted
    ensures forall k :: 0 <= k < |extracted| && extracted[k].tid !in toDelete ==> extracted[k] in r
  {
    Filter(extracted, (e: Extracted) => e.tid !in toDelete)
  }

  function Registered(tasks: seq<Task>, kept: seq<Extracted>, ids: seq<TaskId>, k: nat, today: DayKey): Task
    requires |ids| == |kept| && k < |kept|
  {
    NewTask(ids[k], kept[k].name, kept[k].memo, kept[k].tag, today, MaxOrderOfTag(tasks, kept[k].tag) + 1 + k)
  }

  /**
   * `registerTasks()`: the kept proposals are appended as new 未着手 tasks; the `k`-th gets order
   * (largest existing order of its tag, or -1) + 1 + k. The fresh ids are a parameter.
   */
  function RegisterTasks(tasks: seq<Task>, extracted: seq<Extracted>, toDelete: set<int>,
                         ids: seq<TaskId>, today: DayKey): (r: seq<Task>)
    requires |ids| == |Kept(extracted, toDelete)|
    ensures |r| == |tasks| + |Kept(extracted, toDelete)| && r[..|tasks|] == tasks
    ensures forall k :: 0 <= k < |ids| ==> r[|tasks| + k] == Registered(tasks, Kept(extracted, toDelete), ids, k, today)
  {
    var kept := Kept(extracted, toDelete);
    tasks + seq(|kept|, k requires 0 <= k < |kept| => Registered(tasks, kept, ids, k, today))
  }

  /**
   * A registered task sorts after every existing task of its tag, and registered tasks of one
   * tag keep their proposal order.
   */
  lemma RegisteredOrdersAfterExisting(tasks: seq<Task>, extracted: seq<Extracted>, toDelete: set<int>,
                                      ids: seq<TaskId>, today: DayKey)
    requires |ids| == |Kept(extracted, toDelete)|
    ensures forall k, i :: 0 <= k < |ids| && 0 <= i < |tasks| && tasks[i].tag == Kept(extracted, toDelete)[k].tag ==>
              OrderOf(tasks[i]) < OrderOf(RegisterTasks(tasks, extracted, toDelete, ids, today)[|tasks| + k])
    ensures forall k, l :: 0 <= k < l < |ids| && Kept(extracted, toDelete)[k].tag == Kept(extracted, toDelete)[l].tag ==>
              OrderOf(RegisterTasks(tasks, extracted, toDelete, ids, today)[|tasks| + k])
              < OrderOf(RegisterTasks(tasks, extracted, toDelete, ids, today)[|tasks| + l])
  {
  }

  /** Registering tasks with fresh, distinct ids keeps the invariant. */
  lemma RegisterTasksPreservesInv(tasks: seq<Task>, extracted: seq<Extracted>, toDelete: set<int>,
                                  ids: seq<TaskId>, today: DayKey)
    requires Inv(tasks) && |ids| == |Kept(extracted, toDelete)|
    requires forall k, l :: 0 <= k < l < |ids| ==> ids[k] != ids[l]
    requires forall k, i :: 0 <= k < |ids| && 0 <= i < |tasks| ==> ids[k] != tasks[i].id
    ensures Inv(RegisterTasks(tasks, extracted, toDelete, ids, today))
  {
    var r := RegisterTasks(tasks, extracted, toDelete, ids, today);
    forall i | |tasks| <= i < |r| ensures TaskConsistent(r[i]) && r[i].status == NotStarted && r[i].id == ids[i - |tasks|] {
      assert r[i] == Registered(tasks, Kept(extracted, toDelete), ids, i - |tasks|, today);
    }
    forall i | 0 <= i < |tasks| ensures r[i] == tasks[i] {
      assert r[..|tasks|][i] == r[i];
    }
  }

  // ------------------------------------------------------------ elapsed times

  /** `elapsedTimes`: task id to `calculateElapsedTime(task)`, a later task overwriting an earlier one. */
  function ElapsedTimes(tasks: seq<Task>, now: int): (m: map<TaskId, int>)
    ensures forall i :: 0 <= i < |tasks| ==> tasks[i].id in m
    ensures forall id :: id in m ==> exists i :: 0 <= i < |tasks| && tasks[i].id == id
  {
    if |tasks| == 0 then map[]
    else
      var last := tasks[|tasks| - 1];
      var rest := ElapsedTimes(tasks[..|tasks| - 1], now);
      assert forall i :: 0 <= i < |tasks| - 1 ==> tasks[..|tasks| - 1][i] == tasks[i];
      rest[last.id := CalculateElapsedTime(last, now)]
  }

  /** With unique ids every task's entry is its own elapsed time. */
  lemma {:induction false} ElapsedTimesOfUnique(tasks: seq<Task>, now: int)
    requires UniqueIds(tasks)
    ensures forall i :: 0 <= i < |tasks| ==> ElapsedTimes(tasks, now)[tasks[i].id] == CalculateElapsedTime(tasks[i], now)
  {
    if |tasks| > 0 {
      var init := tasks[..|tasks| - 1];
      assert UniqueIds(init) by {
        forall i, j | 0 <= i < j < |init| ensures init[i].id != init[j].id {
          assert init[i] == tasks[i] && init[j] == tasks[j];
        }
      }
      ElapsedTimesOfUnique(init, now);
      forall i | 0 <= i < |tasks| - 1
        ensures ElapsedTimes(tasks, now)[tasks[i].id] == CalculateElapsedTime(tasks[i], now)
      {
        assert init[i] == tasks[i];
      }
    }
  }
}
