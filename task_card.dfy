/**
 * The card of one task (src/components/TaskCard.jsx): which lifecycle buttons each status
 * offers, when the reorder buttons are disabled, and how the estimate input is stored.
 */
module TaskCard {
  import opened Wrappers
  import opened Collections
  import opened Text
  import opened Model
  import Tasks
  import Board

  datatype Action = Start | Pause | Complete | Wait | Delete

  /** The buttons under the card, left to right. */
  function OfferedActions(s: Status): (r: seq<Action>)
    ensures Delete in r && r[|r| - 1] == Delete
    ensures Start in r <==> s != Working
    ensures Pause in r <==> s == Working
    ensures Wait in r <==> s == Working
    ensures Complete in r <==> s == Working || s == Paused || s == Waiting
  {
    match s
    case NotStarted => [Start, Delete]
    case Working => [Pause, Complete, Wait, Delete]
    case Paused => [Start, Complete, Delete]
    case Waiting => [Start, Complete, Delete]
    case Done => [Start, Delete]
  }

  /** The handler a button calls, applied to the collection. */
  function Perform(tasks: seq<Task>, id: TaskId, a: Action, now: int, today: DayKey): seq<Task>
  {
    match a
    case Start => Tasks.StartTask(tasks, id, now, today)
    case Pause => Tasks.PauseTask(tasks, id, now)
    case Complete => Tasks.CompleteTask(tasks, id, now, today)
    case Wait => Tasks.WaitTask(tasks, id, now)
    case Delete => Tasks.DeleteTask(tasks, id)
  }

  /**
   * Whatever button a card offers keeps the collection invariant: the card never offers Start
   * on a working task, which is the one call that would break it.
   */
  lemma OfferedActionsKeepInv(tasks: seq<Task>, i: nat, a: Action, now: int, today: DayKey)
    requires Tasks.Inv(tasks) && now > 0 && i < |tasks|
    requires a in OfferedActions(tasks[i].status)
    ensures Tasks.Inv(Perform(tasks, tasks[i].id, a, now, today))
  {
    var id := tasks[i].id;
    match a
    case Start =>
      assert forall j :: 0 <= j < |tasks| && tasks[j].id == id ==> j == i;
      Tasks.StartTaskPreservesInv(tasks, id, now, today);
    case Pause => Tasks.PauseTaskPreservesInv(tasks, id, now);
    case Complete => Tasks.CompleteTaskPreservesInv(tasks, id, now, today);
    case Wait => Tasks.WaitTaskPreservesInv(tasks, id, now);
    case Delete => Tasks.DeleteTaskPreservesInv(tasks, id);
  }

  // ------------------------------------------------------------ reorder buttons

  /** `disabled={index === 0}` on ↑. */
  predicate MoveUpEnabled(index: int)
  {
    index != 0
  }

  /** `disabled={index === listLength - 1}` on ↓. */
  predicate MoveDownEnabled(index: int, listLength: int)
  {
    index != listLength - 1
  }

  /** The first card of a column has ↑ disabled, and moving it up would change nothing. */
  lemma MoveUpDisabledIsNoOp(tasks: seq<Task>, byTag: map<string, seq<Task>>, i: nat)
    requires i < |tasks| && UniqueIds(tasks)
    requires tasks[i].tag in byTag && |byTag[tasks[i].tag]| > 0 && byTag[tasks[i].tag][0] == tasks[i]
    ensures !MoveUpEnabled(IndexWhere(byTag[tasks[i].tag], Board.HasId(tasks[i].id)))
    ensures Board.MoveTaskInTag(tasks, byTag, tasks[i].id, -1) == tasks
  {
    var task := tasks[i];
    var at := IndexWhere(tasks, Board.HasId(task.id));
    assert at == i;
    if !IsDone(task) {
      var c := Board.Column(byTag, task.tag);
      assert c == [c[0]] + c[1..];
      FilterConcat([c[0]], c[1..], Not(IsDone));
      var open := Filter(c, Not(IsDone));
      assert open[0] == task;
      assert IndexWhere(open, Board.HasId(task.id)) == 0;
    }
  }

  /**
   * The last card of a column has ↓ disabled, and, the column's ids being distinct, moving it
   * down would change nothing.
   */
  lemma MoveDownDisabledIsNoOp(tasks: seq<Task>, byTag: map<string, seq<Task>>, i: nat)
    requires i < |tasks| && UniqueIds(tasks) && tasks[i].tag in byTag
    requires var c := byTag[tasks[i].tag];
      |c| > 0 && c[|c| - 1] == tasks[i] && forall a, b :: 0 <= a < b < |c| ==> c[a].id != c[b].id
    ensures !MoveDownEnabled(IndexWhere(byTag[tasks[i].tag], Board.HasId(tasks[i].id)), |byTag[tasks[i].tag]|)
    ensures Board.MoveTaskInTag(tasks, byTag, tasks[i].id, 1) == tasks
  {
    var task := tasks[i];
    var at := IndexWhere(tasks, Board.HasId(task.id));
    assert at == i;
    if !IsDone(task) {
      LastOpenStaysLast(Board.Column(byTag, task.tag), task.id);
    }
  }

  /** In a column with distinct ids whose last card is open, that card is also the last open one. */
  lemma LastOpenStaysLast(c: seq<Task>, id: TaskId)
    requires |c| > 0 && c[|c| - 1].id == id && !IsDone(c[|c| - 1])
    requires forall a, b :: 0 <= a < b < |c| ==> c[a].id != c[b].id
    ensures var open := Filter(c, Not(IsDone));
            |open| > 0 && IndexWhere(open, Board.HasId(id)) == |open| - 1
  {
    LastStaysLastFiltered(c, Not(IsDone), Board.HasId(id));
  }

  // ------------------------------------------------------------ estimate input

  /** `value={task.estimatedMinutes || ''}`. */
  function EstimateShown(m: int): (s: string)
    ensures m == 0 <==> s == ""
  {
    if m == 0 then "" else IntToString(m)
  }

  /** `onUpdateTask(id, 'estimatedMinutes', Number(value) || 0)`. */
  function EstimateEdit(value: string): (e: Tasks.Edit)
    ensures e.SetEstimatedMinutes?
    ensures IsBlank(value) ==> e.minutes == 0
    ensures ToNumber(value).NaN? ==> e.minutes == 0
    ensures AllDigits(value) && value != "" ==> e.minutes == DigitsValue(value)
  {
    Tasks.SetEstimatedMinutes(OrZero(ToNumber(value)))
  }

  /** Re-entering what the card shows stores the same estimate. */
  lemma EstimateShownRoundTrip(m: nat)
    ensures EstimateEdit(EstimateShown(m)) == Tasks.SetEstimatedMinutes(m)
  {
    if m != 0 {
      var s := NatToString(m);
      DigitsValueOfNatToString(m);
      assert IntToString(m) == s;
      assert forall k :: 0 <= k < |s| ==> !IsWhitespace(s[k]);
      assert Trim(s) == s;
    }
  }
}
