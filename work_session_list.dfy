/**
 * The session history of one task card (src/components/WorkSessionList.jsx): the list is shown
 * sorted by start, and edits made on a displayed row are mapped back to the task's own list,
 * which is then handed to `updateSessions` with its total recomputed.
 */
module WorkSessionList {
  import opened Wrappers
  import opened Collections
  import opened Model
  import opened Formatters
  import Tasks

  /** `[...sessions].sort((a, b) => a.start - b.start)`. */
  function AllSessions(ws: seq<Session>): (r: seq<Session>)
    ensures multiset(r) == multiset(ws)
    ensures forall i, j :: 0 <= i < j < |r| ==> r[i].start <= r[j].start
  {
    SortBy(ws, StartOf)
  }

  /** `!session.end && task.status === '作業中'`. */
  predicate IsActive(s: Session, t: Task)
  {
    !Truthy(s.end) && t.status == Working
  }

  /** In a consistent task the active session is the last one of a working task. */
  lemma IsActiveExactly(t: Task, k: nat)
    requires Tasks.TaskConsistent(t) && k < |t.workSessions|
    ensures IsActive(t.workSessions[k], t) <==> t.status == Working && k == |t.workSessions| - 1
  {
  }

  /** The row's identity used to find it again: `s.start === d.start && s.end === d.end`. */
  predicate SameSpan(s: Session, d: Session)
  {
    s.start == d.start && s.end == d.end
  }

  /** `sessions.findIndex(...)` for a displayed row. */
  function FirstSameSpan(ws: seq<Session>, d: Session): (k: int)
    ensures -1 <= k < |ws|
    ensures k == -1 <==> forall i :: 0 <= i < |ws| ==> !SameSpan(ws[i], d)
    ensures k >= 0 ==> SameSpan(ws[k], d) && forall i :: 0 <= i < k ==> !SameSpan(ws[i], d)
  {
    IndexWhere(ws, (s: Session) => SameSpan(s, d))
  }

  /** Every displayed row is found in the task's own list, so the `-1` guard never fires from the card. */
  lemma DisplayedRowIsFound(ws: seq<Session>, index: nat)
    requires index < |ws|
    ensures FirstSameSpan(ws, AllSessions(ws)[index]) >= 0
  {
    var d := AllSessions(ws)[index];
    assert d in multiset(AllSessions(ws));
    assert d in ws;
    var i :| 0 <= i < |ws| && ws[i] == d;
    assert SameSpan(ws[i], d);
  }

  /** What a handler passes to `onUpdateSessions`. */
  datatype Emitted = Emitted(id: TaskId, sessions: seq<Session>, acc: int)

  // -------------------------------------------------------------------- update

  /** The list after replacing the first entry with the row's span by `upd`, stamped with the task's id. */
  function UpdatedSessions(ws: seq<Session>, d: Session, upd: Session, id: TaskId): (r: Option<seq<Session>>)
    ensures r.None? <==> forall i :: 0 <= i < |ws| ==> !SameSpan(ws[i], d)
    ensures r.Some? ==> |r.value| == |ws|
    ensures r.Some? ==> var k := FirstSameSpan(ws, d);
              r.value[k] == upd.(taskId := id) && forall i :: 0 <= i < |ws| && i != k ==> r.value[i] == ws[i]
  {
    var k := FirstSameSpan(ws, d);
    if k == -1 then None else Some(ws[k := upd.(taskId := id)])
  }

  /** `handleUpdateSession(index, updatedSession)`: copy the list, assign one cell, recompute the total. */
  method HandleUpdateSession(task: Task, index: nat, upd: Session) returns (e: Option<Emitted>)
    requires index < |task.workSessions|
    ensures var r := UpdatedSessions(task.workSessions, AllSessions(task.workSessions)[index], upd, task.id);
      e == if r.None? then None else Some(Emitted(task.id, r.value, SumClosed(r.value)))
  {
    var ws := task.workSessions;
    var all := AllSessions(ws);
    var k := FirstSameSpan(ws, all[index]);
    if k == -1 {
      return None;
    }
    var a := new Session[|ws|](i requires 0 <= i < |ws| => ws[i]);
    a[k] := upd.(taskId := task.id);
    var newSessions := a[..];
    assert newSessions == ws[k := upd.(taskId := task.id)];
    var acc := RecalculateAccumulatedTime(newSessions);
    e := Some(Emitted(task.id, newSessions, acc));
  }

  /**
   * Moving the start of a working task's open session hands up a list whose last session no
   * longer starts at `startedAt`, which nothing updates: the task loses its consistency.
   */
  lemma EditOpenStartBreaksConsistency(t: Task, newStart: int)
    requires Tasks.TaskConsistent(t) && t.status == Working
    requires newStart != t.workSessions[|t.workSessions| - 1].start
    ensures var ws := t.workSessions;
      var r := UpdatedSessions(ws, ws[|ws| - 1], ws[|ws| - 1].(start := newStart), t.id);
      r.Some? && !Tasks.TaskConsistent(t.(workSessions := r.value, accumulatedTime := SumClosed(r.value)))
  {
    var ws := t.workSessions;
    var k := |ws| - 1;
    forall j | 0 <= j < k
      ensures !SameSpan(ws[j], ws[k])
    {
      assert Truthy(ws[j].end) && !Truthy(ws[k].end);
    }
    assert SameSpan(ws[k], ws[k]);
    assert FirstSameSpan(ws, ws[k]) == k;
  }

  // -------------------------------------------------------------------- delete

  /** The list without its first entry with the row's span, the others in their order. */
  function DeletedSessions(ws: seq<Session>, d: Session): (r: Option<seq<Session>>)
    ensures r.None? <==> forall i :: 0 <= i < |ws| ==> !SameSpan(ws[i], d)
    ensures r.Some? ==> var k := FirstSameSpan(ws, d);
              |r.value| == |ws| - 1
              && (forall i :: 0 <= i < k ==> r.value[i] == ws[i])
              && (forall i :: k <= i < |r.value| ==> r.value[i] == ws[i + 1])
              && multiset(r.value) == multiset(ws) - multiset{ws[k]}
  {
    var k := FirstSameSpan(ws, d);
    if k == -1 then None else Some(RemoveAt(ws, k))
  }

  /** `handleDeleteSession(index)`. */
  method HandleDeleteSession(task: Task, index: nat) returns (e: Option<Emitted>)
    requires index < |task.workSessions|
    ensures var r := DeletedSessions(task.workSessions, AllSessions(task.workSessions)[index]);
      e == if r.None? then None else Some(Emitted(task.id, r.value, SumClosed(r.value)))
  {
    var r := DeletedSessions(task.workSessions, AllSessions(task.workSessions)[index]);
    if r.None? {
      return None;
    }
    var acc := RecalculateAccumulatedTime(r.value);
    e := Some(Emitted(task.id, r.value, acc));
  }

  /** Deleting a row takes exactly its closed seconds off the total. */
  lemma DeleteSubtractsItsSeconds(ws: seq<Session>, d: Session)
    requires DeletedSessions(ws, d).Some?
    ensures SumClosed(DeletedSessions(ws, d).value) == SumClosed(ws) - ClosedSeconds(ws[FirstSameSpan(ws, d)])
  {
    var k := FirstSameSpan(ws, d);
    var r := DeletedSessions(ws, d).value;
    assert ws == ws[..k] + [ws[k]] + ws[k + 1..];
    assert r == ws[..k] + ws[k + 1..];
    SumOfConcat(ws[..k] + [ws[k]], ws[k + 1..], ClosedSeconds);
    SumOfConcat(ws[..k], ws[k + 1..], ClosedSeconds);
    SumClosedAppend(ws[..k], ws[k]);
  }

  // ----------------------------------------------------------------------- add

  /** Append the new session with the task's id, then sort by start; overlaps are not checked. */
  function AddedSessions(ws: seq<Session>, ns: Session, id: TaskId): (r: seq<Session>)
    ensures multiset(r) == multiset(ws) + multiset{ns.(taskId := id)}
    ensures forall i, j :: 0 <= i < j < |r| ==> r[i].start <= r[j].start
  {
    SortBy(ws + [ns.(taskId := id)], StartOf)
  }

  /** `handleAddSession(newSession)`. */
  method HandleAddSession(task: Task, ns: Session) returns (e: Emitted)
    ensures e == Emitted(task.id, AddedSessions(task.workSessions, ns, task.id), SumClosed(AddedSessions(task.workSessions, ns, task.id)))
  {
    var newSessions := AddedSessions(task.workSessions, ns, task.id);
    var acc := RecalculateAccumulatedTime(newSessions);
    e := Emitted(task.id, newSessions, acc);
  }

  /** The re-sort does not change the total: adding a row adds exactly its closed seconds. */
  lemma AddAddsItsSeconds(ws: seq<Session>, ns: Session, id: TaskId)
    ensures SumClosed(AddedSessions(ws, ns, id)) == SumClosed(ws) + ClosedSeconds(ns)
  {
    var s := ns.(taskId := id);
    SumClosedOrderIndependent(AddedSessions(ws, ns, id), ws + [s]);
    SumClosedAppend(ws, s);
  }

  /**
   * Adding a row that starts after the open session of a working task sorts it behind that
   * session, so the open session is no longer last and the task loses its consistency.
   */
  lemma AddAfterOpenSessionBreaksConsistency(t: Task, ns: Session)
    requires Tasks.TaskConsistent(t) && t.status == Working
    requires ns.start > t.workSessions[|t.workSessions| - 1].start
    ensures var ws := AddedSessions(t.workSessions, ns, t.id);
      !Tasks.TaskConsistent(t.(workSessions := ws, accumulatedTime := SumClosed(ws)))
  {
    var ws := t.workSessions;
    var o := ws[|ws| - 1];
    var s := ns.(taskId := t.id);
    var r := AddedSessions(ws, ns, t.id);
    assert o in multiset(ws);
    assert o in multiset(r) && s in multiset(r);
    EarlierOpenNotLast(r, o, s);
  }

  /** In a list sorted by start, an open session that starts before another one is not the last. */
  lemma EarlierOpenNotLast(r: seq<Session>, o: Session, s: Session)
    requires forall i, j :: 0 <= i < j < |r| ==> r[i].start <= r[j].start
    requires o in r && s in r && o.start < s.start && !Truthy(o.end)
    ensures exists k :: 0 <= k < |r| - 1 && !Truthy(r[k].end)
  {
    var i :| 0 <= i < |r| && r[i] == o;
    var j :| 0 <= j < |r| && r[j] == s;
    assert i < |r| - 1;
  }

  // ------------------------------------------------- the lists handed up

  /** A consistent task that is not working has only closed sessions. */
  lemma IdleSessionsClosed(t: Task)
    requires Tasks.TaskConsistent(t) && t.status != Working
    ensures forall k :: 0 <= k < |t.workSessions| ==> Truthy(t.workSessions[k].end)
  {
  }

  /** With unique ids, the tasks bearing the id of task `i` are that task only. */
  lemma OnlyThisTaskHasItsId(tasks: seq<Task>, i: nat)
    requires Tasks.Inv(tasks) && i < |tasks| && tasks[i].status != Working
    ensures forall j :: 0 <= j < |tasks| && tasks[j].id == tasks[i].id ==> tasks[j].status != Working
  {
  }

  /** Deleting a row of a task that is not working hands up a list that keeps the invariant. */
  lemma DeleteOnIdleTaskKeepsInv(tasks: seq<Task>, i: nat, index: nat)
    requires Tasks.Inv(tasks) && i < |tasks| && tasks[i].status != Working && index < |tasks[i].workSessions|
    ensures var ws := tasks[i].workSessions;
      var r := DeletedSessions(ws, AllSessions(ws)[index]);
      r.Some? && Tasks.Inv(Tasks.UpdateSessions(tasks, tasks[i].id, r.value, SumClosed(r.value)))
  {
    var ws := tasks[i].workSessions;
    DisplayedRowIsFound(ws, index);
    IdleSessionsClosed(tasks[i]);
    var r := DeletedSessions(ws, AllSessions(ws)[index]).value;
    var k := FirstSameSpan(ws, AllSessions(ws)[index]);
    forall j | 0 <= j < |r| ensures Truthy(r[j].end) {
      if j < k { assert r[j] == ws[j]; } else { assert r[j] == ws[j + 1]; }
    }
    OnlyThisTaskHasItsId(tasks, i);
    Tasks.UpdateSessionsPreservesInv(tasks, tasks[i].id, r);
  }

  /** Adding a closed session to a task that is not working hands up a list that keeps the invariant. */
  lemma AddOnIdleTaskKeepsInv(tasks: seq<Task>, i: nat, ns: Session)
    requires Tasks.Inv(tasks) && i < |tasks| && tasks[i].status != Working && Truthy(ns.end)
    ensures var r := AddedSessions(tasks[i].workSessions, ns, tasks[i].id);
      Tasks.Inv(Tasks.UpdateSessions(tasks, tasks[i].id, r, SumClosed(r)))
  {
    var ws := tasks[i].workSessions;
    var s := ns.(taskId := tasks[i].id);
    var r := AddedSessions(ws, ns, tasks[i].id);
    IdleSessionsClosed(tasks[i]);
    forall j | 0 <= j < |r| ensures Truthy(r[j].end) {
      assert r[j] in multiset(r);
      if r[j] != s {
        assert r[j] in multiset(ws);
      }
    }
    OnlyThisTaskHasItsId(tasks, i);
    Tasks.UpdateSessionsPreservesInv(tasks, tasks[i].id, r);
  }

  /**
   * Editing a row of a task that is not working into a closed session hands up a list that
   * keeps the invariant.
   */
  lemma UpdateOnIdleTaskKeepsInv(tasks: seq<Task>, i: nat, index: nat, upd: Session)
    requires Tasks.Inv(tasks) && i < |tasks| && tasks[i].status != Working && index < |tasks[i].workSessions|
    requires Truthy(upd.end)
    ensures var ws := tasks[i].workSessions;
      var r := UpdatedSessions(ws, AllSessions(ws)[index], upd, tasks[i].id);
      r.Some? && Tasks.Inv(Tasks.UpdateSessions(tasks, tasks[i].id, r.value, SumClosed(r.value)))
  {
    var ws := tasks[i].workSessions;
    DisplayedRowIsFound(ws, index);
    IdleSessionsClosed(tasks[i]);
    var r := UpdatedSessions(ws, AllSessions(ws)[index], upd, tasks[i].id).value;
    OnlyThisTaskHasItsId(tasks, i);
    Tasks.UpdateSessionsPreservesInv(tasks, tasks[i].id, r);
  }
}
