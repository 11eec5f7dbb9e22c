/**
 * The today board of src/App.jsx: which tasks are shown, how they are grouped by tag and
 * ordered, the `order` swap behind the arrow buttons, the manual "+" task, and the two tag
 * lists `tags` (the set offered in forms) and `tagOrder` (the column order).
 */
module Board {
  import opened Wrappers
  import opened Text
  import opened Collections
  import opened Model
  import Tasks

  /** `todayTasks`: every unfinished task, and the finished ones completed today. */
  function TodayTasks(tasks: seq<Task>, today: DayKey): (r: seq<Task>)
    ensures forall i :: 0 <= i < |r| ==> r[i] in tasks && (IsDone(r[i]) ==> r[i].completedDate == Some(today))
    ensures forall i :: 0 <= i < |tasks| && !IsDone(tasks[i]) ==> tasks[i] in r
    ensures forall i :: 0 <= i < |tasks| && tasks[i].completedDate == Some(today) ==> tasks[i] in r
  {
    Filter(tasks, (t: Task) => t.status == Done ==> t.completedDate == Some(today))
  }

  /** The comparator of `sortTasks`: done after not done, otherwise by `order || 0`. */
  function Compare(a: Task, b: Task): int
  {
    if IsDone(a) && !IsDone(b) then 1
    else if !IsDone(a) && IsDone(b) then -1
    else OrderOf(a) - OrderOf(b)
  }

  /**
   * `sortTasks(list)`: a stable sort by `Compare`, which is the unfinished tasks sorted by order
   * followed by the finished ones sorted by order.
   */
  function SortTasks(list: seq<Task>): (r: seq<Task>)
    ensures multiset(r) == multiset(list)
    ensures forall i, j :: 0 <= i < j < |r| ==> Compare(r[i], r[j]) <= 0
  {
    var open, done := Filter(list, Not(IsDone)), Filter(list, IsDone);
    FilterSplit(list, IsDone);
    SortByKeeps(open, OrderOf, Not(IsDone));
    SortByKeeps(done, OrderOf, IsDone);
    SortedPartsCompare(SortBy(open, OrderOf), SortBy(done, OrderOf));
    SortBy(open, OrderOf) + SortBy(done, OrderOf)
  }

  /** Unfinished tasks sorted by order, then finished ones sorted by order, are sorted by `Compare`. */
  lemma SortedPartsCompare(a: seq<Task>, b: seq<Task>)
    requires SortedBy(a, OrderOf) && SortedBy(b, OrderOf)
    requires forall i :: 0 <= i < |a| ==> !IsDone(a[i])
    requires forall i :: 0 <= i < |b| ==> IsDone(b[i])
    ensures forall i, j :: 0 <= i < j < |a + b| ==> Compare((a + b)[i], (a + b)[j]) <= 0
  {
    var r := a + b;
    forall i, j | 0 <= i < j < |r| ensures Compare(r[i], r[j]) <= 0 {
      if j < |a| {
        assert r[i] == a[i] && r[j] == a[j];
      } else if i >= |a| {
        assert r[i] == b[i - |a|] && r[j] == b[j - |a|];
      } else {
        assert r[i] == a[i] && r[j] == b[j - |a|];
      }
    }
  }

  /** The tasks of one column before sorting. */
  function TagGroup(tasks: seq<Task>, tag: string): (r: seq<Task>)
    ensures forall i :: 0 <= i < |r| ==> r[i].tag == tag && r[i] in tasks
    ensures forall i :: 0 <= i < |tasks| && tasks[i].tag == tag ==> tasks[i] in r
  {
    Filter(tasks, (t: Task) => t.tag == tag)
  }

  /**
   * `tasksByTag`: a column per entry of `tagOrder`, plus the untagged column under "" (an
   * absent tag and the empty tag are both stored as "").
   */
  function TasksByTag(todayTasks: seq<Task>, tagOrder: seq<string>): (m: map<string, seq<Task>>)
    ensures forall tag :: tag in m <==> tag in tagOrder || tag == ""
    ensures forall tag :: tag in m ==> m[tag] == SortTasks(TagGroup(todayTasks, tag))
  {
    (map tag | tag in tagOrder :: SortTasks(TagGroup(todayTasks, tag)))[ "" := SortTasks(TagGroup(todayTasks, ""))]
  }

  /** A task of the board sits in its own column when that column exists. */
  lemma TaskInItsColumn(todayTasks: seq<Task>, tagOrder: seq<string>, i: nat)
    requires i < |todayTasks| && (todayTasks[i].tag in tagOrder || todayTasks[i].tag == "")
    ensures todayTasks[i] in TasksByTag(todayTasks, tagOrder)[todayTasks[i].tag]
  {
    var t := todayTasks[i];
    var m := TasksByTag(todayTasks, tagOrder);
    assert t in TagGroup(todayTasks, t.tag);
    assert t in multiset(m[t.tag]);
  }

  /** A task whose non-empty tag is not in `tagOrder` appears in no column. */
  lemma UnlistedTagInNoColumn(todayTasks: seq<Task>, tagOrder: seq<string>, t: Task)
    requires t.tag != "" && t.tag !in tagOrder
    ensures forall tag :: tag in TasksByTag(todayTasks, tagOrder) ==> t !in TasksByTag(todayTasks, tagOrder)[tag]
  {
    var m := TasksByTag(todayTasks, tagOrder);
    forall tag | tag in m ensures t !in m[tag] {
      var g := TagGroup(todayTasks, tag);
      assert t !in multiset(g);
    }
  }

  // ------------------------------------------------------------ moving a task

  /** The column the board shows for a tag (`tasksByTag[tag] || []`). */
  function Column(m: map<string, seq<Task>>, tag: string): seq<Task>
  {
    if tag in m then m[tag] else []
  }

  /** Every task's `order || 0`, in collection order. */
  function Orders(tasks: seq<Task>): (r: seq<int>)
    ensures |r| == |tasks| && forall i :: 0 <= i < |tasks| ==> r[i] == OrderOf(tasks[i])
  {
    seq(|tasks|, i requires 0 <= i < |tasks| => OrderOf(tasks[i]))
  }

  /** `t => t.id === id`. */
  function HasId(id: TaskId): Task -> bool
  {
    (t: Task) => t.id == id
  }

  /** The unfinished tasks of a column, in the order shown. */
  function OpenInColumn(byTag: map<string, seq<Task>>, tag: string): seq<Task>
  {
    Filter(Column(byTag, tag), Not(IsDone))
  }

  /**
   * `moveTaskInTag(id, dir)` against the board `byTag`: among the unfinished tasks of the task's
   * column, the task and the one `dir` places away exchange orders. A missing or finished task,
   * or a neighbour beyond either end, leaves everything as it was.
   */
  function MoveTaskInTag(tasks: seq<Task>, byTag: map<string, seq<Task>>, id: TaskId, dir: int): (r: seq<Task>)
    ensures |r| == |tasks|
    ensures forall i :: 0 <= i < |tasks| ==> SameButOrder(r[i], tasks[i])
    ensures (forall i :: 0 <= i < |tasks| ==> tasks[i].id != id) ==> r == tasks
  {
    var at := IndexWhere(tasks, HasId(id));
    if at == -1 then tasks else MoveFrom(tasks, byTag, id, dir, at)
  }

  /** The move once the task is found at `at`. */
  function MoveFrom(tasks: seq<Task>, byTag: map<string, seq<Task>>, id: TaskId, dir: int, at: nat): (r: seq<Task>)
    requires at < |tasks| && tasks[at].id == id
    ensures |r| == |tasks|
    ensures forall i :: 0 <= i < |tasks| ==> SameButOrder(r[i], tasks[i])
  {
    var task := tasks[at];
    if IsDone(task) then tasks
    else
      var open := OpenInColumn(byTag, task.tag);
      var newIdx := IndexWhere(open, HasId(id)) + dir;
      if newIdx < 0 || newIdx >= |open| then tasks
      else
        var target := open[newIdx];
        SwapOrders(tasks, id, target.id, OrderOf(task), OrderOf(target))
  }

  /**
   * What a move does, case by case, for the first task `at` with the id: nothing when it is
   * finished or its neighbour `dir` places away among the column's unfinished tasks does not
   * exist; otherwise the task takes the neighbour's order, the neighbour takes the task's, and
   * every other record is unchanged.
   */
  lemma MoveTaskInTagExchanges(tasks: seq<Task>, byTag: map<string, seq<Task>>, id: TaskId, dir: int, at: nat)
    requires at < |tasks| && tasks[at].id == id && forall j :: 0 <= j < at ==> tasks[j].id != id
    ensures IsDone(tasks[at]) ==> MoveTaskInTag(tasks, byTag, id, dir) == tasks
    ensures !IsDone(tasks[at]) ==>
      var r := MoveTaskInTag(tasks, byTag, id, dir);
      var open := OpenInColumn(byTag, tasks[at].tag);
      var k := IndexWhere(open, HasId(id)) + dir;
      (k < 0 || k >= |open| ==> r == tasks)
      && (0 <= k < |open| ==> forall i :: 0 <= i < |tasks| ==>
            r[i] == if tasks[i].id == id then tasks[i].(order := Some(OrderOf(open[k])))
                    else if tasks[i].id == open[k].id then tasks[i].(order := Some(OrderOf(tasks[at])))
                    else tasks[i])
  {
    IndexWhereFirst(tasks, HasId(id), at);
    assert MoveTaskInTag(tasks, byTag, id, dir) == MoveFrom(tasks, byTag, id, dir, at);
    if !IsDone(tasks[at]) {
      var open := OpenInColumn(byTag, tasks[at].tag);
      var k := IndexWhere(open, HasId(id)) + dir;
      if 0 <= k < |open| {
        var sw := SwapOrders(tasks, id, open[k].id, OrderOf(tasks[at]), OrderOf(open[k]));
        assert MoveFrom(tasks, byTag, id, dir, at) == sw;
        SwapOrdersAt(tasks, id, open[k].id, OrderOf(tasks[at]), OrderOf(open[k]));
      }
    }
  }

  lemma SwapOrdersAt(tasks: seq<Task>, id: TaskId, other: TaskId, a: int, b: int)
    ensures forall i :: 0 <= i < |tasks| ==>
      SwapOrders(tasks, id, other, a, b)[i] == if tasks[i].id == id then tasks[i].(order := Some(b))
        else if tasks[i].id == other then tasks[i].(order := Some(a)) else tasks[i]
  {
  }

  /** Two records that differ at most in `order`. */
  predicate SameButOrder(a: Task, b: Task)
  {
    a.(order := None) == b.(order := None)
  }

  /** The task `id` takes order `b` and the task `other` takes order `a`. */
  function SwapOrders(tasks: seq<Task>, id: TaskId, other: TaskId, a: int, b: int): (r: seq<Task>)
    ensures |r| == |tasks|
    ensures forall i :: 0 <= i < |tasks| ==> SameButOrder(r[i], tasks[i])
    ensures forall i :: 0 <= i < |tasks| && tasks[i].id == id ==> OrderOf(r[i]) == b
    ensures forall i :: 0 <= i < |tasks| && tasks[i].id != id && tasks[i].id == other ==> OrderOf(r[i]) == a
    ensures forall i :: 0 <= i < |tasks| && tasks[i].id != id && tasks[i].id != other ==> r[i] == tasks[i]
  {
    seq(|tasks|, i requires 0 <= i < |tasks| =>
      if tasks[i].id == id then tasks[i].(order := Some(b))
      else if tasks[i].id == other then tasks[i].(order := Some(a))
      else tasks[i])
  }

  /** The board as App.jsx derives it from the collection. */
  function BoardOf(tasks: seq<Task>, tagOrder: seq<string>, today: DayKey): map<string, seq<Task>>
  {
    TasksByTag(TodayTasks(tasks, today), tagOrder)
  }

  /** Every task shown on the derived board belongs to the collection. */
  lemma BoardMember(tasks: seq<Task>, tagOrder: seq<string>, today: DayKey, tag: string, x: Task)
    requires x in Column(BoardOf(tasks, tagOrder, today), tag)
    ensures x in tasks
  {
    var todays := TodayTasks(tasks, today);
    assert x in multiset(TagGroup(todays, tag));
    assert x in todays;
  }

  /** Exchanging the orders of two distinct tasks permutes the orders. */
  lemma SwapOrdersKeepsOrders(tasks: seq<Task>, p: nat, q: nat)
    requires UniqueIds(tasks) && p < |tasks| && q < |tasks|
    ensures multiset(Orders(SwapOrders(tasks, tasks[p].id, tasks[q].id, OrderOf(tasks[p]), OrderOf(tasks[q]))))
            == multiset(Orders(tasks))
  {
    var r := SwapOrders(tasks, tasks[p].id, tasks[q].id, OrderOf(tasks[p]), OrderOf(tasks[q]));
    assert forall i :: 0 <= i < |tasks| && i != p ==> tasks[i].id != tasks[p].id;
    assert forall i :: 0 <= i < |tasks| && i != q ==> tasks[i].id != tasks[q].id;
    SwapMultiset(Orders(tasks), Orders(r), p, q);
  }

  /**
   * On the board derived from the collection, with unique ids, moving a task only permutes
   * the orders: the multiset of `order || 0` values is unchanged.
   */
  lemma MoveTaskInTagKeepsOrders(tasks: seq<Task>, tagOrder: seq<string>, today: DayKey, id: TaskId, dir: int)
    requires UniqueIds(tasks)
    ensures multiset(Orders(MoveTaskInTag(tasks, BoardOf(tasks, tagOrder, today), id, dir))) == multiset(Orders(tasks))
  {
    var byTag := BoardOf(tasks, tagOrder, today);
    var at := IndexWhere(tasks, HasId(id));
    if at != -1 && !IsDone(tasks[at]) {
      var task := tasks[at];
      var open := OpenInColumn(byTag, task.tag);
      var newIdx := IndexWhere(open, HasId(id)) + dir;
      if 0 <= newIdx < |open| {
        var target := open[newIdx];
        FilterMember(Column(byTag, task.tag), Not(IsDone), target);
        BoardMember(tasks, tagOrder, today, task.tag, target);
        var q :| 0 <= q < |tasks| && tasks[q] == target;
        SwapOrdersKeepsOrders(tasks, at, q);
      }
    }
  }

  /** Moving a task is a no-op for a finished task. */
  lemma MoveDoneTaskIsNoOp(tasks: seq<Task>, byTag: map<string, seq<Task>>, i: nat, dir: int)
    requires i < |tasks| && IsDone(tasks[i]) && UniqueIds(tasks)
    ensures MoveTaskInTag(tasks, byTag, tasks[i].id, dir) == tasks
  {
    var at := IndexWhere(tasks, HasId(tasks[i].id));
    assert at == i;
  }

  // ------------------------------------------------------------ the manual task

  /** `Math.min(...ts.map(t => t.order || 0))`. */
  function MinOrder(ts: seq<Task>): (m: int)
    requires |ts| > 0
    ensures forall i :: 0 <= i < |ts| ==> m <= OrderOf(ts[i])
    ensures exists i :: 0 <= i < |ts| && OrderOf(ts[i]) == m
  {
    if |ts| == 1 then OrderOf(ts[0])
    else
      var rest := MinOrder(ts[1..]);
      assert forall i :: 1 <= i < |ts| ==> ts[i] == ts[1..][i - 1];
      if OrderOf(ts[0]) <= rest then OrderOf(ts[0]) else rest
  }

  /**
   * `addManualTask(tag)`: a blank 未着手 task is put at the front of the collection, ordered just
   * before the smallest order among the column's unfinished tasks (-1 for an empty column).
   */
  function AddManualTask(tasks: seq<Task>, byTag: map<string, seq<Task>>, tag: string, id: TaskId, today: DayKey): (r: seq<Task>)
    ensures |r| == |tasks| + 1 && r[1..] == tasks
    ensures r[0] == NewTask(id, "", "", tag, today, OrderOf(r[0]))
    ensures forall i :: 0 <= i < |Column(byTag, tag)| && !IsDone(Column(byTag, tag)[i]) ==>
              OrderOf(r[0]) < OrderOf(Column(byTag, tag)[i])
    ensures (exists i :: 0 <= i < |Column(byTag, tag)| && !IsDone(Column(byTag, tag)[i])) ==>
              exists i :: 0 <= i < |Column(byTag, tag)| && !IsDone(Column(byTag, tag)[i]) &&
                OrderOf(r[0]) == OrderOf(Column(byTag, tag)[i]) - 1
    ensures (forall i :: 0 <= i < |Column(byTag, tag)| ==> IsDone(Column(byTag, tag)[i])) ==> OrderOf(r[0]) == -1
  {
    var col := Column(byTag, tag);
    var open := Filter(col, Not(IsDone));
    var minOrder := if |open| > 0 then MinOrder(open) else 0;
    if |open| > 0 then
      MinOpenAttained(col);
      [NewTask(id, "", "", tag, today, minOrder - 1)] + tasks
    else
      [NewTask(id, "", "", tag, today, minOrder - 1)] + tasks
  }

  /** The smallest order among a column's unfinished tasks belongs to one of them. */
  lemma MinOpenAttained(col: seq<Task>)
    requires |Filter(col, Not(IsDone))| > 0
    ensures exists i :: 0 <= i < |col| && !IsDone(col[i]) && OrderOf(col[i]) == MinOrder(Filter(col, Not(IsDone)))
  {
    var open := Filter(col, Not(IsDone));
    var j :| 0 <= j < |open| && OrderOf(open[j]) == MinOrder(open);
    assert open[j] in col;
  }

  /** The manual task with a fresh id keeps the lifecycle invariant. */
  lemma AddManualTaskPreservesInv(tasks: seq<Task>, byTag: map<string, seq<Task>>, tag: string, id: TaskId, today: DayKey)
    requires Tasks.Inv(tasks)
    requires forall i :: 0 <= i < |tasks| ==> tasks[i].id != id
    ensures Tasks.Inv(AddManualTask(tasks, byTag, tag, id, today))
  {
    var r := AddManualTask(tasks, byTag, tag, id, today);
    assert forall i :: 1 <= i < |r| ==> r[i] == tasks[i - 1];
  }

  // ------------------------------------------------------------------ tags

  /** The two tag lists hold the same names, each once, none empty. */
  ghost predicate TagsInv(tags: seq<string>, tagOrder: seq<string>)
  {
    multiset(tags) == multiset(tagOrder) && "" !in tags
    && forall i, j :: 0 <= i < j < |tags| ==> tags[i] != tags[j]
  }

  datatype TagLists = TagLists(tags: seq<string>, tagOrder: seq<string>)

  /**
   * `addTag()`: the trimmed input is appended to both lists unless it is empty or already a
   * tag; `newTag` is cleared only when the tag was added.
   */
  function AddTag(l: TagLists, newTag: string): (r: (TagLists, string))
    ensures Trim(newTag) == "" || Trim(newTag) in l.tags ==> r == (l, newTag)
    ensures Trim(newTag) != "" && Trim(newTag) !in l.tags ==>
              r == (TagLists(l.tags + [Trim(newTag)], l.tagOrder + [Trim(newTag)]), "")
  {
    var trimmed := Trim(newTag);
    if trimmed == "" || trimmed in l.tags then (l, newTag)
    else (TagLists(l.tags + [trimmed], l.tagOrder + [trimmed]), "")
  }

  lemma AddTagPreservesInv(l: TagLists, newTag: string)
    requires TagsInv(l.tags, l.tagOrder)
    ensures TagsInv(AddTag(l, newTag).0.tags, AddTag(l, newTag).0.tagOrder)
  {
  }

  function RemoveTag(s: seq<string>, name: string): (r: seq<string>)
    ensures forall x :: x in r <==> x in s && x != name
    ensures multiset(r) == multiset(s)[name := 0]
  {
    WithoutMembers(s, name);
    WithoutMultiset(s, name);
    Without(s, name)
  }

  /** The delete-tag confirmation dialog. */
  datatype TagDialog = Closed | Confirm(name: string, count: nat)

  /**
   * `deleteTagStart(name)`: a tag still carried by tasks opens the dialog with their count;
   * an unused tag is removed from both lists at once.
   */
  function DeleteTagStart(tasks: seq<Task>, l: TagLists, name: string): (r: (TagLists, TagDialog))
    ensures Count(tasks, (t: Task) => t.tag == name) > 0 ==>
              r == (l, Confirm(name, Count(tasks, (t: Task) => t.tag == name)))
    ensures Count(tasks, (t: Task) => t.tag == name) == 0 ==>
              r == (TagLists(RemoveTag(l.tags, name), RemoveTag(l.tagOrder, name)), Closed)
  {
    var count := Count(tasks, (t: Task) => t.tag == name);
    if count > 0 then (l, Confirm(name, count))
    else (TagLists(RemoveTag(l.tags, name), RemoveTag(l.tagOrder, name)), Closed)
  }

  /** `confirmDeleteTag(name)`: its tasks become untagged, and the name leaves both lists. */
  function ConfirmDeleteTag(tasks: seq<Task>, l: TagLists, name: string): (r: (seq<Task>, TagLists))
    ensures |r.0| == |tasks|
    ensures forall i :: 0 <= i < |tasks| ==> r.0[i] == if tasks[i].tag == name then tasks[i].(tag := "") else tasks[i]
    ensures r.1 == TagLists(RemoveTag(l.tags, name), RemoveTag(l.tagOrder, name))
  {
    (seq(|tasks|, i requires 0 <= i < |tasks| => if tasks[i].tag == name then tasks[i].(tag := "") else tasks[i]),
     TagLists(RemoveTag(l.tags, name), RemoveTag(l.tagOrder, name)))
  }

  /** Removing a name from both lists keeps them in step. */
  lemma RemoveTagPreservesInv(l: TagLists, name: string)
    requires TagsInv(l.tags, l.tagOrder)
    ensures TagsInv(RemoveTag(l.tags, name), RemoveTag(l.tagOrder, name))
  {
    WithoutDistinct(l.tags, name);
  }

  /** Confirming a deletion keeps every task, untags the deleted tag's tasks, and keeps the invariant. */
  lemma ConfirmDeleteTagKeepsTasks(tasks: seq<Task>, l: TagLists, name: string)
    requires Tasks.Inv(tasks) && name != ""
    ensures Tasks.Inv(ConfirmDeleteTag(tasks, l, name).0)
    ensures forall i :: 0 <= i < |tasks| ==> ConfirmDeleteTag(tasks, l, name).0[i].tag != name
  {
    var r := ConfirmDeleteTag(tasks, l, name).0;
    forall i | 0 <= i < |r|
      ensures Tasks.TaskConsistent(r[i]) && r[i].id == tasks[i].id && r[i].status == tasks[i].status
    {
      assert r[i].workSessions == tasks[i].workSessions && r[i].startedAt == tasks[i].startedAt;
      assert r[i].accumulatedTime == tasks[i].accumulatedTime;
    }
  }

  /** Where `moveTag(name, dir)` leaves the column order (the name must be listed). */
  function MovedTag(tagOrder: seq<string>, name: string, dir: int): (r: seq<string>)
    requires name in tagOrder
    ensures |r| == |tagOrder| && multiset(r) == multiset(tagOrder)
  {
    var idx := TagIndex(tagOrder, name);
    var newIdx := idx + dir;
    if newIdx < 0 || newIdx >= |tagOrder| then tagOrder
    else
      var r := tagOrder[idx := tagOrder[newIdx]][newIdx := tagOrder[idx]];
      SwapMultiset(tagOrder, r, idx, newIdx);
      r
  }

  /** `prev.indexOf(name)` on a list of strings. */
  function TagIndex(s: seq<string>, name: string): (r: int)
    ensures -1 <= r < |s|
    ensures r == -1 <==> name !in s
    ensures r >= 0 ==> s[r] == name && name !in s[..r]
  {
    IndexWhere(s, (t: string) => t == name)
  }

  /** `moveTag(name, dir)`: copy the order into a fresh array and swap the two cells. */
  method MoveTag(tagOrder: seq<string>, name: string, dir: int) returns (r: seq<string>)
    requires name in tagOrder
    ensures r == MovedTag(tagOrder, name, dir)
  {
    var idx := TagIndex(tagOrder, name);
    var newIdx := idx + dir;
    if newIdx < 0 || newIdx >= |tagOrder| {
      return tagOrder;
    }
    var arr := new string[|tagOrder|](i requires 0 <= i < |tagOrder| => tagOrder[i]);
    arr[idx], arr[newIdx] := arr[newIdx], arr[idx];
    r := arr[..];
  }

  /** In a list without duplicates, the swap puts the name at its new index. */
  lemma MovedTagIndex(tagOrder: seq<string>, name: string, dir: int)
    requires name in tagOrder && forall i, j :: 0 <= i < j < |tagOrder| ==> tagOrder[i] != tagOrder[j]
    requires 0 <= TagIndex(tagOrder, name) + dir < |tagOrder|
    ensures TagIndex(MovedTag(tagOrder, name, dir), name) == TagIndex(tagOrder, name) + dir
  {
    var idx := TagIndex(tagOrder, name);
    var n := idx + dir;
    var r := MovedTag(tagOrder, name, dir);
    assert r[n] == name;
    assert forall i :: 0 <= i < |r| && i != n ==> r[i] != name by {
      forall i | 0 <= i < |r| && i != n ensures r[i] != name {
        if i == idx {
          assert r[i] == tagOrder[n];
        } else {
          assert r[i] == tagOrder[i];
        }
      }
    }
    var k := TagIndex(r, name);
    assert r[k] == name;
  }

  /** A move in range puts the name `dir` places away, and the opposite move undoes it. */
  lemma MoveTagThereAndBack(tagOrder: seq<string>, name: string, dir: int)
    requires name in tagOrder && forall i, j :: 0 <= i < j < |tagOrder| ==> tagOrder[i] != tagOrder[j]
    requires 0 <= TagIndex(tagOrder, name) + dir < |tagOrder|
    ensures MovedTag(tagOrder, name, dir)[TagIndex(tagOrder, name) + dir] == name
    ensures MovedTag(MovedTag(tagOrder, name, dir), name, -dir) == tagOrder
  {
    var idx := TagIndex(tagOrder, name);
    var n := idx + dir;
    var r := MovedTag(tagOrder, name, dir);
    MovedTagIndex(tagOrder, name, dir);
    assert r == tagOrder[idx := tagOrder[n]][n := tagOrder[idx]];
    var back := MovedTag(r, name, -dir);
    assert back == r[n := r[idx]][idx := r[n]];
    SwapBack(tagOrder, idx, n);
  }

  /** Moving keeps the two lists in step. */
  lemma MoveTagPreservesInv(l: TagLists, name: string, dir: int)
    requires TagsInv(l.tags, l.tagOrder) && name in l.tagOrder
    ensures TagsInv(l.tags, MovedTag(l.tagOrder, name, dir))
  {
  }
}
