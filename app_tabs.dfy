/**
 * The derived views of src/components/AppTabs.jsx: the review tab's completion rate and
 * per-tag rollup over `reviewTasks` (src/App.jsx), the database table's order, and when the
 * untagged column is shown on the today board.
 */
module AppTabs {
  import opened Wrappers
  import opened Collections
  import opened Model
  import opened Formatters
  import Board

  // ------------------------------------------------------------ the week window

  /**
   * `reviewTasks` for the week as written: `new Date(t.registeredDate)` is UTC midnight of the
   * registration date, kept when it lies between seven days ago and now.
   */
  function ReviewTasksAsWritten(tasks: seq<Task>, now: int): (r: seq<Task>)
    ensures forall i :: 0 <= i < |r| ==> r[i] in tasks
  {
    Filter(tasks, (t: Task) => now - 7 * DayMs <= t.registeredDate * DayMs <= now)
  }

  /**
   * East of Greenwich a task registered today is left out of the week until the UTC date
   * catches up: at 08:00 in UTC+9 on the registration day the task is not reviewed.
   */
  lemma ReviewAsWrittenDropsToday(t: Task, now: int, off: TzOffset)
    requires off > 0 && LocalDay(now, off) == t.registeredDate && now + off < t.registeredDate * DayMs + off
    ensures ReviewTasksAsWritten([t], now) == []
  {
    assert [t][1..] == [];
  }

  lemma ReviewAsWrittenExample(t: Task)
    requires t.registeredDate == 19853
    ensures LocalDay(19853 * DayMs - HourMs, 9 * HourMs) == t.registeredDate
    ensures ReviewTasksAsWritten([t], 19853 * DayMs - HourMs) == []
  {
    ReviewAsWrittenDropsToday(t, 19853 * DayMs - HourMs, 9 * HourMs);
  }

  /** The instant the local registration date begins. */
  function LocalMidnight(day: DayKey, off: TzOffset): int
  {
    day * DayMs - off
  }

  /** `reviewTasks` for the week with the registration date read as a local date. */
  function ReviewTasks(tasks: seq<Task>, now: int, off: TzOffset): (r: seq<Task>)
    ensures forall i :: 0 <= i < |r| ==> r[i] in tasks
    ensures forall i :: 0 <= i < |r| ==> now - 7 * DayMs <= LocalMidnight(r[i].registeredDate, off) <= now
    ensures forall i :: 0 <= i < |tasks| && now - 7 * DayMs <= LocalMidnight(tasks[i].registeredDate, off) <= now
              ==> tasks[i] in r
  {
    Filter(tasks, (t: Task) => now - 7 * DayMs <= LocalMidnight(t.registeredDate, off) <= now)
  }

  /** Tasks registered today and on each of the six days before are all reviewed. */
  lemma ReviewTasksCoversTheWeek(tasks: seq<Task>, now: int, off: TzOffset, i: nat)
    requires i < |tasks| && LocalDay(now, off) - 6 <= tasks[i].registeredDate <= LocalDay(now, off)
    ensures tasks[i] in ReviewTasks(tasks, now, off)
  {
  }

  /** The two readings agree at UTC. */
  lemma ReviewReadingsAgreeAtUtc(tasks: seq<Task>, now: int)
    ensures ReviewTasks(tasks, now, 0) == ReviewTasksAsWritten(tasks, now)
  {
    FilterAgree(tasks, (t: Task) => now - 7 * DayMs <= LocalMidnight(t.registeredDate, 0) <= now,
                       (t: Task) => now - 7 * DayMs <= t.registeredDate * DayMs <= now);
  }

  // ------------------------------------------------------------ completion rate

  /** `Math.round(comp / total * 100)`, 0 when there are no tasks. */
  function CompletionRate(comp: nat, total: nat): (rate: int)
    requires comp <= total
    ensures 0 <= rate <= 100
    ensures total == 0 ==> rate == 0
    ensures total > 0 ==> 2 * rate * total - total <= 200 * comp < 2 * rate * total + total
  {
    if total > 0 then
      RoundedRate(comp, total);
      (200 * comp + total) / (2 * total)
    else 0
  }

  /** The rounded percentage lies within half a percent of the exact one, and in 0..100. */
  lemma RoundedRate(comp: nat, total: nat)
    requires comp <= total && total > 0
    ensures var q := (200 * comp + total) / (2 * total);
            0 <= q <= 100 && 2 * q * total - total <= 200 * comp < 2 * q * total + total
  {
    var n, d := 200 * comp + total, 2 * total;
    var q, r := n / d, n % d;
    assert n == q * d + r && 0 <= r < d;
    assert q * d == 2 * q * total;
    if q > 100 {
      MulMonotone(101, q, d);
    }
  }

  lemma MulMonotone(a: int, b: int, c: nat)
    requires a <= b
    ensures a * c <= b * c
  {
    assert b * c - a * c == (b - a) * c;
  }

  /** The rate is 100 exactly when at most half a percent is missing, and 0 exactly when under half a percent is done. */
  lemma CompletionRateExtremes(comp: nat, total: nat)
    requires comp <= total && total > 0
    ensures CompletionRate(comp, total) == 100 <==> 200 * comp >= 199 * total
    ensures CompletionRate(comp, total) == 0 <==> 200 * comp < total
  {
    var r := CompletionRate(comp, total);
    if r < 100 {
      MulMonotone(r, 99, total);
    }
    if r > 0 {
      MulMonotone(1, r, total);
    }
  }

  /** The numbers the review tab shows above the tag list. */
  datatype Summary = Summary(comp: nat, total: nat, rate: int)

  function ReviewSummary(reviewTasks: seq<Task>): (s: Summary)
    ensures s.comp == Count(reviewTasks, IsDone) && s.total == |reviewTasks|
    ensures s.comp <= s.total && 0 <= s.rate <= 100
  {
    var comp := Count(reviewTasks, IsDone);
    Summary(comp, |reviewTasks|, CompletionRate(comp, |reviewTasks|))
  }

  // ------------------------------------------------------------ per-tag rollup

  const UntaggedLabel := "タグなし"

  /** The filter of one rollup row: the synthetic row takes untagged tasks. */
  function InRow(tg: string): Task -> bool
  {
    (t: Task) => if tg == UntaggedLabel then t.tag == "" else t.tag == tg
  }

  /** `elapsedTimes[t.id] || 0`. */
  function ElapsedOr0(elapsed: map<TaskId, int>): Task -> int
  {
    (t: Task) => if t.id in elapsed then elapsed[t.id] else 0
  }

  datatype Row = Row(tag: string, list: seq<Task>, done: nat, seconds: int)

  function RollupRow(reviewTasks: seq<Task>, elapsed: map<TaskId, int>, tg: string): (row: Row)
    ensures row.tag == tg
    ensures forall i :: 0 <= i < |row.list| ==> row.list[i] in reviewTasks && InRow(tg)(row.list[i])
    ensures forall i :: 0 <= i < |reviewTasks| && InRow(tg)(reviewTasks[i]) ==> reviewTasks[i] in row.list
    ensures row.done <= |row.list| && row.done == |Filter(row.list, IsDone)|
    ensures row.seconds == SumOf(row.list, ElapsedOr0(elapsed))
  {
    var list := Filter(reviewTasks, InRow(tg));
    Row(tg, list, Count(list, IsDone), SumOf(list, ElapsedOr0(elapsed)))
  }

  /** `[...tags, 'タグなし'].map(...)`: a row per tag and a last row for untagged tasks. */
  function Rollup(reviewTasks: seq<Task>, elapsed: map<TaskId, int>, tags: seq<string>): (rows: seq<Row>)
    ensures |rows| == |tags| + 1
    ensures forall k :: 0 <= k < |rows| ==> rows[k] == RollupRow(reviewTasks, elapsed, (tags + [UntaggedLabel])[k])
  {
    var labels := tags + [UntaggedLabel];
    seq(|labels|, k requires 0 <= k < |labels| => RollupRow(reviewTasks, elapsed, labels[k]))
  }

  /** The last row holds exactly the untagged review tasks. */
  lemma RollupUntaggedRow(reviewTasks: seq<Task>, elapsed: map<TaskId, int>, tags: seq<string>, t: Task)
    requires t in reviewTasks
    ensures t in Rollup(reviewTasks, elapsed, tags)[|tags|].list <==> t.tag == ""
  {
    var row := Rollup(reviewTasks, elapsed, tags)[|tags|];
    assert (tags + [UntaggedLabel])[|tags|] == UntaggedLabel;
    if t in row.list {
      var i :| 0 <= i < |row.list| && row.list[i] == t;
    }
  }

  /** A real tag named like the synthetic row is rolled up with the untagged tasks instead of its own. */
  lemma RollupLabelCollision(reviewTasks: seq<Task>, elapsed: map<TaskId, int>, tags: seq<string>, k: nat)
    requires k < |tags| && tags[k] == UntaggedLabel
    ensures Rollup(reviewTasks, elapsed, tags)[k] == Rollup(reviewTasks, elapsed, tags)[|tags|]
  {
    assert (tags + [UntaggedLabel])[k] == (tags + [UntaggedLabel])[|tags|];
  }

  /**
   * If no tag is named like the synthetic row and every review task's tag is listed or empty,
   * every review task is counted in some row.
   */
  lemma RollupRowsCover(reviewTasks: seq<Task>, elapsed: map<TaskId, int>, tags: seq<string>, t: Task)
    requires UntaggedLabel !in tags
    requires t in reviewTasks && (t.tag in tags || t.tag == "")
    ensures exists k :: 0 <= k < |tags| + 1 && t in Rollup(reviewTasks, elapsed, tags)[k].list
  {
    var rows := Rollup(reviewTasks, elapsed, tags);
    var labels := tags + [UntaggedLabel];
    if t.tag == "" {
      assert labels[|tags|] == UntaggedLabel;
      assert t in rows[|tags|].list;
    } else {
      var k :| 0 <= k < |tags| && tags[k] == t.tag;
      assert labels[k] == t.tag;
      assert t in rows[k].list;
    }
  }

  /**
   * With distinct tags, none of them empty or named like the synthetic row, no review task is
   * counted in two rows.
   */
  lemma RollupRowsDisjoint(reviewTasks: seq<Task>, elapsed: map<TaskId, int>, tags: seq<string>, t: Task, k: nat, l: nat)
    requires UntaggedLabel !in tags && "" !in tags && forall i, j :: 0 <= i < j < |tags| ==> tags[i] != tags[j]
    requires k < l < |tags| + 1 && t in Rollup(reviewTasks, elapsed, tags)[k].list
    ensures t !in Rollup(reviewTasks, elapsed, tags)[l].list
  {
    var labels := tags + [UntaggedLabel];
    RowMember(reviewTasks, elapsed, labels[k], t);
    assert labels[k] == tags[k];
    if l == |tags| {
      assert labels[l] == UntaggedLabel;
    } else {
      assert labels[l] == tags[l];
    }
    if t in Rollup(reviewTasks, elapsed, tags)[l].list {
      RowMember(reviewTasks, elapsed, labels[l], t);
    }
  }

  lemma RowMember(reviewTasks: seq<Task>, elapsed: map<TaskId, int>, tg: string, t: Task)
    requires t in RollupRow(reviewTasks, elapsed, tg).list
    ensures InRow(tg)(t)
  {
    var list := RollupRow(reviewTasks, elapsed, tg).list;
    var i :| 0 <= i < |list| && list[i] == t;
  }

  // --------------------------------------------------------------- the database

  function NegRegistered(t: Task): int
  {
    -t.registeredDate
  }

  /** The database table's order: newest registration first (`.sort` by date descending, stable). */
  function SortByRegisteredDesc(filtered: seq<Task>): (r: seq<Task>)
    ensures multiset(r) == multiset(filtered)
    ensures forall i, j :: 0 <= i < j < |r| ==> r[i].registeredDate >= r[j].registeredDate
  {
    var r := SortBy(filtered, NegRegistered);
    assert forall i, j :: 0 <= i < j < |r| ==> NegRegistered(r[i]) <= NegRegistered(r[j]);
    r
  }

  // ------------------------------------------------------------ the untagged column

  /** `tasksByTag[''] && tasksByTag[''].length > 0`. */
  predicate UntaggedColumnShown(byTag: map<string, seq<Task>>)
  {
    "" in byTag && |byTag[""]| > 0
  }

  /** A tag's group is non-empty exactly when some task carries the tag. */
  lemma TagGroupNonEmpty(tasks: seq<Task>, tag: string)
    ensures |Board.TagGroup(tasks, tag)| > 0 <==> exists i :: 0 <= i < |tasks| && tasks[i].tag == tag
  {
    var g := Board.TagGroup(tasks, tag);
    if exists i :: 0 <= i < |tasks| && tasks[i].tag == tag {
      var i :| 0 <= i < |tasks| && tasks[i].tag == tag;
      assert tasks[i] in g;
    }
    if |g| > 0 {
      assert g[0] in tasks;
    }
  }

  /** On the derived board the column is shown exactly when some task of the board is untagged. */
  lemma UntaggedColumnShownExactly(todayTasks: seq<Task>, tagOrder: seq<string>)
    ensures UntaggedColumnShown(Board.TasksByTag(todayTasks, tagOrder))
            <==> exists i :: 0 <= i < |todayTasks| && todayTasks[i].tag == ""
  {
    var m := Board.TasksByTag(todayTasks, tagOrder);
    var g := Board.TagGroup(todayTasks, "");
    assert m[""] == Board.SortTasks(g);
    assert |multiset(m[""])| == |multiset(g)|;
    TagGroupNonEmpty(todayTasks, "");
  }
}
