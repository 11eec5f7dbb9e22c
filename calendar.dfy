/**
 * The seven-day calendar: `calendarData` in src/App.jsx buckets every session by its local
 * start date under the last seven UTC dates, and src/components/DayCalendarCard.jsx totals
 * and draws one day.
 */
module Calendar {
  import opened Wrappers
  import opened Collections
  import opened Model
  import opened Formatters
  import Tasks

  /** The day keys of the view: `toISOString` dates of now and of the six days before. */
  function CalendarDates(now: int): (r: seq<DayKey>)
    ensures |r| == 7
    ensures forall i :: 0 <= i < 7 ==> r[i] == UtcDay(now - i * DayMs)
  {
    seq(7, i requires 0 <= i < 7 => UtcDay(now - i * DayMs))
  }

  /** The view's dates are today's UTC date and the six before it, so all seven are distinct. */
  lemma CalendarDatesConsecutive(now: int)
    ensures forall i :: 0 <= i < 7 ==> CalendarDates(now)[i] == UtcDay(now) - i
    ensures forall i, j :: 0 <= i < j < 7 ==> CalendarDates(now)[i] != CalendarDates(now)[j]
  {
    forall i | 0 <= i < 7 ensures CalendarDates(now)[i] == UtcDay(now) - i {
      assert now - i * DayMs == (now / DayMs - i) * DayMs + now % DayMs;
    }
  }

  /** A task's sessions stamped with its id (`{...session, taskId: task.id}`). */
  function Stamp(ws: seq<Session>, id: TaskId): (r: seq<Session>)
    ensures |r| == |ws|
    ensures forall k :: 0 <= k < |ws| ==> r[k] == ws[k].(taskId := id)
  {
    seq(|ws|, k requires 0 <= k < |ws| => ws[k].(taskId := id))
  }

  /** Every session of every task, stamped, in the order the two `forEach` loops visit them. */
  function AllStamped(tasks: seq<Task>): seq<Session>
  {
    if |tasks| == 0 then []
    else AllStamped(tasks[..|tasks| - 1]) + Stamp(tasks[|tasks| - 1].workSessions, tasks[|tasks| - 1].id)
  }

  /** The sessions of a list whose local start date is `d`, in list order. */
  function OnDay(ss: seq<Session>, d: DayKey, off: TzOffset): (r: seq<Session>)
    ensures forall k :: 0 <= k < |r| ==> r[k] in ss && LocalDay(r[k].start, off) == d
    ensures forall k :: 0 <= k < |ss| && LocalDay(ss[k].start, off) == d ==> ss[k] in r
    ensures multiset(r) <= multiset(ss)
  {
    if |ss| == 0 then []
    else
      var init, s := ss[..|ss| - 1], ss[|ss| - 1];
      assert ss == init + [s];
      OnDay(init, d, off) + (if LocalDay(s.start, off) == d then [s] else [])
  }

  /** What `calendarData` computes, bucket by bucket: the day's sessions sorted by start. */
  function CalendarView(tasks: seq<Task>, now: int, off: TzOffset): (m: map<DayKey, seq<Session>>)
    ensures forall d :: d in m <==> d in CalendarDates(now)
  {
    map d | d in CalendarDates(now) :: SortBy(OnDay(AllStamped(tasks), d, off), StartOf)
  }

  lemma OnDayAppend(ss: seq<Session>, s: Session, d: DayKey, off: TzOffset)
    ensures OnDay(ss + [s], d, off) == OnDay(ss, d, off) + (if LocalDay(s.start, off) == d then [s] else [])
  {
    assert (ss + [s])[..|ss|] == ss;
  }

  /** The inner `forEach`: push one task's stamped sessions into the buckets of their dates. */
  method PushSessions(data: map<DayKey, seq<Session>>, ghost prefix: seq<Session>, ws: seq<Session>, id: TaskId, off: TzOffset)
    returns (data': map<DayKey, seq<Session>>)
    requires forall d :: d in data ==> data[d] == OnDay(prefix, d, off)
    ensures data'.Keys == data.Keys
    ensures forall d :: d in data' ==> data'[d] == OnDay(prefix + Stamp(ws, id), d, off)
  {
    data' := data;
    var k := 0;
    ghost var seen := prefix;
    ghost var stamped := Stamp(ws, id);
    assert stamped[..0] == [];
    while k < |ws|
      invariant 0 <= k <= |ws| && data'.Keys == data.Keys
      invariant seen == prefix + stamped[..k]
      invariant forall d :: d in data' ==> data'[d] == OnDay(seen, d, off)
    {
      var session := ws[k].(taskId := id);
      var sessionDate := LocalDay(ws[k].start, off);
      assert stamped[..k + 1] == stamped[..k] + [session];
      BucketStep(data', seen, session, off);
      if sessionDate in data' {
        data' := data'[sessionDate := data'[sessionDate] + [session]];
      }
      seen := seen + [session];
      k := k + 1;
    }
    assert stamped[..k] == stamped;
  }

  /** Pushing one session into the bucket of its date, if the view has one, extends every bucket's day list. */
  lemma BucketStep(cur: map<DayKey, seq<Session>>, seen: seq<Session>, s: Session, off: TzOffset)
    requires forall d :: d in cur ==> cur[d] == OnDay(seen, d, off)
    ensures var day := LocalDay(s.start, off);
            var next := if day in cur then cur[day := cur[day] + [s]] else cur;
            next.Keys == cur.Keys && forall d :: d in next ==> next[d] == OnDay(seen + [s], d, off)
  {
    forall d | d in cur {
      OnDayAppend(seen, s, d, off);
    }
  }

  /** Replacing the entry of `dates[j]` by `f` of its original value moves the frontier of a per-date update by one. */
  lemma UpdateAtDistinct<V>(data: map<DayKey, V>, cur: map<DayKey, V>, dates: seq<DayKey>, j: nat, f: V -> V)
    requires j < |dates| && forall i :: 0 <= i < |dates| ==> dates[i] in data
    requires forall p, q :: 0 <= p < q < |dates| ==> dates[p] != dates[q]
    requires cur.Keys == data.Keys
    requires forall q :: 0 <= q < j ==> cur[dates[q]] == f(data[dates[q]])
    requires forall q :: j <= q < |dates| ==> cur[dates[q]] == data[dates[q]]
    ensures var next := cur[dates[j] := f(cur[dates[j]])];
            next.Keys == data.Keys
            && (forall q :: 0 <= q < j + 1 ==> next[dates[q]] == f(data[dates[q]]))
            && (forall q :: j + 1 <= q < |dates| ==> next[dates[q]] == data[dates[q]])
  {
    var next := cur[dates[j] := f(cur[dates[j]])];
    forall q | 0 <= q < j
      ensures next[dates[q]] == f(data[dates[q]])
    {
      assert dates[q] != dates[j];
    }
    forall q | j + 1 <= q < |dates|
      ensures next[dates[q]] == data[dates[q]]
    {
      assert dates[q] != dates[j];
    }
  }

  /** The last `forEach`: sort every bucket by start. */
  method SortBuckets(data: map<DayKey, seq<Session>>, dates: seq<DayKey>) returns (data': map<DayKey, seq<Session>>)
    requires forall i :: 0 <= i < |dates| ==> dates[i] in data
    requires forall p, q :: 0 <= p < q < |dates| ==> dates[p] != dates[q]
    ensures data'.Keys == data.Keys
    ensures forall q :: 0 <= q < |dates| ==> data'[dates[q]] == SortBy(data[dates[q]], StartOf)
  {
    var sortByStart := (ss: seq<Session>) => SortBy(ss, StartOf);
    data' := data;
    var j := 0;
    while j < |dates|
      invariant 0 <= j <= |dates|
      invariant data'.Keys == data.Keys
      invariant forall q :: 0 <= q < j ==> data'[dates[q]] == sortByStart(data[dates[q]])
      invariant forall q :: j <= q < |dates| ==> data'[dates[q]] == data[dates[q]]
    {
      var before := data';
      data' := data'[dates[j] := sortByStart(data'[dates[j]])];
      UpdateAtDistinct(data, before, dates, j, sortByStart);
      j := j + 1;
    }
  }

  /**
   * `calendarData`: empty buckets for the seven dates, a push for every session whose local
   * start date has a bucket, then every bucket sorted by start.
   */
  method CalendarData(tasks: seq<Task>, now: int, off: TzOffset) returns (dates: seq<DayKey>, data: map<DayKey, seq<Session>>)
    ensures dates == CalendarDates(now)
    ensures data == CalendarView(tasks, now, off)
  {
    dates := BuildDates(now);
    CalendarDatesConsecutive(now);
    data := map d | d in dates :: [];
    var t := 0;
    while t < |tasks|
      invariant 0 <= t <= |tasks|
      invariant forall d :: d in data <==> d in dates
      invariant forall d :: d in data ==> data[d] == OnDay(AllStamped(tasks[..t]), d, off)
    {
      data := PushSessions(data, AllStamped(tasks[..t]), tasks[t].workSessions, tasks[t].id, off);
      AllStampedSnoc(tasks, t);
      t := t + 1;
    }
    assert tasks[..t] == tasks;
    assert forall i :: 0 <= i < |dates| ==> dates[i] in data by {
      forall i | 0 <= i < |dates| ensures dates[i] in data {
        assert dates[i] in dates;
      }
    }
    var sorted := SortBuckets(data, dates);
    IsCalendarView(sorted, tasks, now, off);
    data := sorted;
  }

  lemma AllStampedSnoc(tasks: seq<Task>, t: nat)
    requires t < |tasks|
    ensures AllStamped(tasks[..t + 1]) == AllStamped(tasks[..t]) + Stamp(tasks[t].workSessions, tasks[t].id)
  {
    assert tasks[..t + 1][..t] == tasks[..t];
  }

  /** The `for` loop collecting the seven dates. */
  method BuildDates(now: int) returns (dates: seq<DayKey>)
    ensures dates == CalendarDates(now)
  {
    dates := [];
    var i := 0;
    while i < 7
      invariant 0 <= i <= 7 && |dates| == i
      invariant forall j :: 0 <= j < i ==> dates[j] == UtcDay(now - j * DayMs)
    {
      dates := dates + [UtcDay(now - i * DayMs)];
      i := i + 1;
    }
  }

  lemma IsCalendarView(data: map<DayKey, seq<Session>>, tasks: seq<Task>, now: int, off: TzOffset)
    requires forall d :: d in data <==> d in CalendarDates(now)
    requires forall d :: d in data ==> data[d] == SortBy(OnDay(AllStamped(tasks), d, off), StartOf)
    ensures data == CalendarView(tasks, now, off)
  {
  }

  /** The index of the task a stamped session came from, and its position there. */
  lemma {:induction false} AllStampedMember(tasks: seq<Task>, s: Session)
    requires s in AllStamped(tasks)
    ensures exists i, k :: 0 <= i < |tasks| && 0 <= k < |tasks[i].workSessions|
              && s == tasks[i].workSessions[k].(taskId := tasks[i].id)
  {
    var init := tasks[..|tasks| - 1];
    var last := tasks[|tasks| - 1];
    if s in AllStamped(init) {
      AllStampedMember(init, s);
      var i, k :| 0 <= i < |init| && 0 <= k < |init[i].workSessions| && s == init[i].workSessions[k].(taskId := init[i].id);
      assert init[i] == tasks[i];
    } else {
      var k :| 0 <= k < |last.workSessions| && Stamp(last.workSessions, last.id)[k] == s;
    }
  }

  lemma {:induction false} AllStampedHas(tasks: seq<Task>, i: nat, k: nat)
    requires i < |tasks| && k < |tasks[i].workSessions|
    ensures tasks[i].workSessions[k].(taskId := tasks[i].id) in AllStamped(tasks)
  {
    var init := tasks[..|tasks| - 1];
    var last := tasks[|tasks| - 1];
    if i < |tasks| - 1 {
      assert init[i] == tasks[i];
      AllStampedHas(init, i, k);
    } else {
      assert Stamp(last.workSessions, last.id)[k] == tasks[i].workSessions[k].(taskId := tasks[i].id);
    }
  }

  /**
   * Every session whose local start date is one of the view's dates is in that date's bucket,
   * stamped with its owner's id; buckets hold nothing else; each bucket is sorted by start.
   */
  lemma CalendarBuckets(tasks: seq<Task>, now: int, off: TzOffset)
    ensures forall i, k :: (0 <= i < |tasks| && 0 <= k < |tasks[i].workSessions|
              && LocalDay(tasks[i].workSessions[k].start, off) in CalendarDates(now)) ==>
              tasks[i].workSessions[k].(taskId := tasks[i].id)
                in CalendarView(tasks, now, off)[LocalDay(tasks[i].workSessions[k].start, off)]
    ensures forall d, s :: d in CalendarView(tasks, now, off) && s in CalendarView(tasks, now, off)[d] ==>
              LocalDay(s.start, off) == d
              && exists i, k :: 0 <= i < |tasks| && 0 <= k < |tasks[i].workSessions|
                   && s == tasks[i].workSessions[k].(taskId := tasks[i].id)
    ensures forall d :: d in CalendarView(tasks, now, off) ==> SortedBy(CalendarView(tasks, now, off)[d], StartOf)
  {
    var m := CalendarView(tasks, now, off);
    var all := AllStamped(tasks);
    forall i, k | 0 <= i < |tasks| && 0 <= k < |tasks[i].workSessions|
        && LocalDay(tasks[i].workSessions[k].start, off) in CalendarDates(now)
      ensures tasks[i].workSessions[k].(taskId := tasks[i].id) in m[LocalDay(tasks[i].workSessions[k].start, off)]
    {
      var s := tasks[i].workSessions[k].(taskId := tasks[i].id);
      var d := LocalDay(s.start, off);
      AllStampedHas(tasks, i, k);
      assert s in OnDay(all, d, off);
      assert s in multiset(m[d]);
    }
    forall d: DayKey, s: Session | d in m && s in m[d]
      ensures LocalDay(s.start, off) == d
              && exists i, k :: 0 <= i < |tasks| && 0 <= k < |tasks[i].workSessions|
                   && s == tasks[i].workSessions[k].(taskId := tasks[i].id)
    {
      assert s in multiset(OnDay(all, d, off));
      assert s in OnDay(all, d, off);
      AllStampedMember(tasks, s);
    }
  }

  // ------------------------------------------------------------- one day's card

  /** `session.end || Date.now()`. */
  function EndOrNow(s: Session, now: int): int
  {
    if Truthy(s.end) then s.end.value else now
  }

  /** One session's summand in `totalSeconds`. */
  function Summand(s: Session, now: int): int
  {
    (EndOrNow(s, now) - s.start) / 1000
  }

  /** `totalSeconds`: the day's floored session seconds, an open session running until now. */
  function TotalSeconds(sessions: seq<Session>, now: int): int
  {
    SumOf(sessions, (s: Session) => Summand(s, now))
  }

  /** `tasks.find(t => t.id === session.taskId)`. */
  function FindTask(tasks: seq<Task>, id: TaskId): (r: Option<Task>)
    ensures r.Some? <==> exists i :: 0 <= i < |tasks| && tasks[i].id == id
    ensures r.Some? ==> r.value in tasks && r.value.id == id
  {
    var i := IndexWhere(tasks, (t: Task) => t.id == id);
    if i == -1 then None else Some(tasks[i])
  }

  /** What the card draws for one session. */
  datatype Block = Block(task: Task, durationSec: int, isActive: bool)

  /**
   * The blocks of the day, in session order: a session whose task is missing is not drawn.
   * A block's duration is `floor((endDate - startDate) / 1000)` with an open session ending now.
   */
  function Blocks(sessions: seq<Session>, tasks: seq<Task>, now: int): (r: seq<Block>)
    ensures |r| <= |sessions|
    ensures forall b :: b in r ==> b.task in tasks
  {
    if |sessions| == 0 then []
    else
      var s := sessions[0];
      var rest := Blocks(sessions[1..], tasks, now);
      match FindTask(tasks, s.taskId)
      case None => rest
      case Some(t) => [Block(t, (EndOrNow(s, now) - s.start) / 1000, !Truthy(s.end))] + rest
  }

  function SessionHasTask(tasks: seq<Task>): Session -> bool
  {
    (s: Session) => FindTask(tasks, s.taskId).Some?
  }

  function BlockSeconds(b: Block): int
  {
    b.durationSec
  }

  /**
   * The drawn durations and the undrawn sessions' summands add up to `totalSeconds`: every
   * drawn duration equals its session's summand, and undrawn sessions still count.
   */
  lemma {:induction false} BlocksAndTotal(sessions: seq<Session>, tasks: seq<Task>, now: int)
    ensures SumOf(Blocks(sessions, tasks, now), BlockSeconds)
            + SumOf(Filter(sessions, Not(SessionHasTask(tasks))), s => Summand(s, now))
            == TotalSeconds(sessions, now)
  {
    if |sessions| > 0 {
      BlocksAndTotal(sessions[1..], tasks, now);
      var s := sessions[0];
      var q := Not(SessionHasTask(tasks));
      assert Filter(sessions, q) == (if q(s) then [s] else []) + Filter(sessions[1..], q);
      SumOfConcat(if q(s) then [s] else [], Filter(sessions[1..], q), (x: Session) => Summand(x, now));
    }
  }

  /** A block is active exactly when its session has no end. */
  lemma {:induction false} BlocksActive(sessions: seq<Session>, tasks: seq<Task>, now: int)
    requires forall k :: 0 <= k < |sessions| ==> FindTask(tasks, sessions[k].taskId).Some?
    ensures |Blocks(sessions, tasks, now)| == |sessions|
    ensures forall k :: 0 <= k < |sessions| ==>
              Blocks(sessions, tasks, now)[k].isActive == !Truthy(sessions[k].end)
              && Blocks(sessions, tasks, now)[k].durationSec == Summand(sessions[k], now)
              && Blocks(sessions, tasks, now)[k].task.id == sessions[k].taskId
  {
    if |sessions| > 0 {
      BlocksActive(sessions[1..], tasks, now);
    }
  }

  /**
   * For a task whose timing fields agree with its sessions, the card's total over its
   * sessions is `calculateElapsedTime` of the task.
   */
  lemma TotalSecondsIsElapsed(t: Task, now: int)
    requires Tasks.TaskConsistent(t)
    ensures TotalSeconds(t.workSessions, now) == CalculateElapsedTime(t, now)
  {
    var ws := t.workSessions;
    if |ws| > 0 && !Truthy(ws[|ws| - 1].end) {
      var init, last := ws[..|ws| - 1], ws[|ws| - 1];
      assert ws == init + [last];
      SumOfPointwise(init, s => Summand(s, now), ClosedSeconds);
      SumOfConcat(init, [last], s => Summand(s, now));
      SumClosedAppend(init, last);
    } else {
      SumOfPointwise(ws, s => Summand(s, now), ClosedSeconds);
    }
  }
}
