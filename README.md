# A verified model of a task time-tracker and its sign-in endpoints

The system is a single-page task board with a per-task timer, plus two small serverless
endpoints that sign a user in with a one-time code sent by mail. This project models its logic
in Dafny and proves what the code promises about it.

What is modelled:

- **Task lifecycle and timer.** Tasks move between 未着手, 作業中, 中断中, 待ち and 完了. Starting a
  task suspends whichever other task is working. Every suspension folds the floored elapsed
  seconds into `accumulatedTime` and closes the last session if it is open. The collection
  invariant is proved to be kept by every transition the task card offers: unique ids, at most
  one working task, and in every task the total equal to `recalculateAccumulatedTime` of its
  sessions, with only the last session open, exactly while the task works, started at `startedAt`.
- **Sessions.** The sorted history list maps a displayed row back to the task's own list for
  update and delete, and re-sorts after an add. The editable row and the add form check time
  strings in the given order, revert on failure and hand up a session only when it changed.
  They read a time on a date as the source does, UTC midnight of the date moved to the local
  time of day, which west of UTC lands a day early (see "## Findings").
- **Formatting.** `formatTime`, `formatMinutes`, the date and weekday helpers, the `HH:MM`
  conversions both ways, and the elapsed and accumulated totals.
- **The board.**
  - Today's tasks.
  - The per-tag columns, with unfinished tasks first, ordered by `order`.
  - Reordering by exchanging `order` values.
  - Manual and batch registration.
  - The two tag lists kept in step by add, delete and move.
- **Derived views.**
  - The seven-day calendar's buckets and per-day totals.
  - The review tab's week window, completion rate and per-tag rollup.
  - The database table's order.
  - When the untagged column is shown.
- **Routine templates.** The today/other split by weekday, the selection, the form's day toggles,
  the every-day flag and the normalised save.
- **The fallback line parser** that turns pasted text into task proposals when the model call fails.
- **One-time-code sign-in.** The key-value store is a map from key to value and expiry, read
  against an explicit clock. The random code and the session token are chosen
  nondeterministically or passed in. The proofs cover the 60-second resend cooldown, the
  five-minute code, the lock after five failures, and the single use of a code.

Conventions:

- Timestamps are integers in milliseconds, and `now` is always a parameter.
- A calendar date is a day key: the number of days since 1970-01-01.
- The local date of an instant is taken at a fixed UTC offset `off` (type `TzOffset`); the UTC
  date uses offset 0.
- JavaScript truthiness of a number-or-null field is `Truthy`: present and non-zero.
- `x || 0` defaults are written out explicitly.
- `Array.prototype.sort` with a numeric comparator is `Collections.SortBy`, a stable sort by key,
  proved to give a sorted permutation.

Each component file becomes one module. App.jsx is split by concern into Tasks, Board, Calendar, FallbackParser and part of AppTabs. Text, Collections, Model, Wrappers and KvStore hold shared definitions and the store that several files use. Code that updates state step by step is modelled as methods
and classes, proved against the functions that the lemmas are about: the calendar loops, the
separator loop, `recalculateAccumulatedTime`, the form components and the two request handlers.

## Model

| member | source | states |
|---|---|---|
| Formatters.FormatTime | src/utils/formatters.js:2-8 | the text is `H…H:MM:SS` with at least two hour digits; the minute and second fields are below 60; 3600·H + 60·M + S equals `max(0, sec)` |
| Formatters.FormatMinutes | src/utils/formatters.js:10-18 | an independent reader of "N分", "H時間M分" and "H時間" reads back exactly `floor(sec / 60)` minutes from every output, negative ones included; the hours part is present exactly from 60 minutes up, and the text ends in 間 exactly on a whole number of hours, in 分 otherwise |
| Formatters.ShowsMinutesUnderAnHour | src/utils/formatters.js:12-13 | under an hour the text "N分" reads back as N |
| Formatters.ShowsHoursAndMinutes | src/utils/formatters.js:15-17 | "H時間M分" reads back as 60·H + M |
| Formatters.ShowsWholeHours | src/utils/formatters.js:15-17 | "H時間" (no minute part) reads back as 60·H |
| Formatters.ReadIntOfIntToString | src/utils/formatters.js:13 | `String(i)` of any integer, negative included, reads back as i |
| Formatters.LocalDay | src/utils/formatters.js:32-37 | the local day key of t is the day whose 24 hours contain `t + off` |
| Formatters.DateString | src/utils/formatters.js:34-37 | the text is the year in decimal, then `-MM-DD` whose fields are two digits with the month's and the day's values; a year from 0 up is all digits with the year's value, and a four-digit year gives 10 characters |
| Formatters.CivilEpoch | src/utils/formatters.js:33-36 | day 0 is 1970-01-01 |
| Formatters.CivilLeapDay | src/utils/formatters.js:33-36 | day 19782 is the leap day 2024-02-29 |
| Formatters.CivilEveOfEpoch | src/utils/formatters.js:33-36 | day -1 is 1969-12-31 |
| Formatters.DayOfWeek | src/utils/formatters.js:44 | `getDay()` is an index 0..6 into 日..土 |
| Formatters.GetWeekday | src/utils/formatters.js:41-45 | at or east of UTC the name is the named date's weekday; west of UTC it is the previous day's, since `new Date("YYYY-MM-DD")` is UTC midnight |
| Formatters.IsValidTimeStringExactly | src/utils/formatters.js:62-69 | `IsValidTimeString` accepts a string iff it is `H:MM` or `HH:MM` of a time of day with hours at most 23 and minutes at most 59 (both directions, against an independent description) |
| Formatters.ValidTimeStringIsTimeOfDay | src/utils/formatters.js:64-68 | every accepted string is such a time of day |
| Formatters.TimeOfDayIsValid | src/utils/formatters.js:64-68 | every such time of day is accepted |
| Formatters.ParseTimeString | src/utils/formatters.js:49 | the hours and minutes split off an accepted string are at most 23 and 59 |
| Formatters.ZeroPadded | src/utils/formatters.js:58 | the form with a two-digit hour is five characters, accepted, and gives the same hours and minutes |
| Formatters.AsWrittenAgreesEastOfUtc | src/utils/formatters.js:48-53 | at or east of UTC the code as written stores the time on the named date |
| Formatters.AsWrittenShiftsWestOfUtc | src/utils/formatters.js:48-53 | west of UTC the code as written stores the time one day (86400000 ms) earlier, on the previous local date |
| Formatters.AsWrittenWesternExample | src/utils/formatters.js:48-53 | in UTC-5, "10:00" on day 19853 (2024-05-10) lands on local day 19852 |
| Formatters.TimeStringToTimestamp | src/utils/formatters.js:48-53 | the timestamp lies on the given local date, and its local time of day is the string's hours and minutes |
| Formatters.TimeStringToTimestampAsWritten | src/utils/formatters.js:48-53 | the source's reading of a time on a date is the time of day on `SourceDay` of that date, and lies on that local day |
| Formatters.SourceDay | src/utils/formatters.js:50-52 | the local day holding UTC midnight of a date is that date at or east of UTC and the day before west of it |
| Formatters.TimestampToTimeString | src/utils/formatters.js:56-59 | a five-character accepted string whose hours and minutes are the local hour and minute of t |
| Formatters.TimeStringRoundTrip | src/utils/formatters.js:48-59 | writing an accepted string into a date and reading it back gives the zero-padded string |
| Formatters.TimestampRoundTrip | src/utils/formatters.js:48-59 | for a minute-aligned local time, reading the time of day and writing it back into the same local date gives the timestamp back |
| Formatters.NineOClock | src/components/AddSessionForm.jsx:10 | the start field's default "09:00" is accepted and reads as 9:00 |
| Formatters.TenOClock | src/components/AddSessionForm.jsx:11 | the end field's default "10:00" is accepted and reads as 10:00 |
| Formatters.RecalculateAccumulatedTime | src/utils/formatters.js:83-91 | the loop's total is `SumClosed`: the sum over the sessions with a truthy end of `floor((end - start) / 1000)` |
| Formatters.SumClosedOrderIndependent | src/utils/formatters.js:83-91 | two lists with the same sessions, in any order, give the same total |
| Formatters.SumClosedAppend | src/utils/formatters.js:85-89 | `SumClosed` of a list with one more session is the old sum plus exactly that session's share |
| Formatters.ClosedSeconds | src/utils/formatters.js:86-88 | an open session adds nothing; a closed one adds the floored seconds of its span |
| Formatters.SumClosedIgnoresOpen | src/utils/formatters.js:86 | dropping the sessions without a truthy end does not change the total |
| Formatters.SumOfZero | src/utils/formatters.js:86 | a list of open sessions totals 0 |
| Formatters.CalculateElapsedTime | src/utils/formatters.js:72-80 | the accumulated time unless the task is 作業中 with a truthy `startedAt`; in that case, with `now` not before the start, at least the accumulated time |
| Model.StatusLabelInjective | src/App.jsx:393 | distinct statuses are stored as distinct strings |
| Model.OrderOf | src/App.jsx:571 | the order when present, else 0 (the default of `order`) |
| Model.NewTask | src/App.jsx:366-379 | a fresh 未着手 task with no sessions, no time, no start, no completion date, no work dates, and the given id, texts, tag, registration date and order |
| Tasks.CloseLast | src/App.jsx:427-431 | same length; every entry before the last is unchanged; the last is closed at `now` only if its end is falsy |
| Tasks.Suspend | src/App.jsx:426-438 | the new status; `startedAt` cleared; the elapsed floored seconds (0 without `startedAt`) added; the last session closed as above; every other field unchanged |
| Tasks.Resume | src/App.jsx:408-416 | 作業中 from `now` with one new open session `{start: now, end: null, taskId: id}`; today added to `workDates` only if absent; `completedDate` cleared; the accumulated time kept |
| Tasks.StartTask | src/App.jsx:390-419 | same ids in the same places; the target resumes; every other 作業中 task is suspended as 中断中; every other task is unchanged |
| Tasks.PauseTask | src/App.jsx:422-442 | the matching task is suspended as 中断中; every other task is unchanged |
| Tasks.WaitTask | src/App.jsx:444-464 | the matching task is suspended as 待ち; every other task is unchanged |
| Tasks.CompleteTask | src/App.jsx:466-487 | the matching task is suspended as 完了 with `completedDate` today; every other task is unchanged |
| Tasks.SuspendConsistent | src/App.jsx:426-438 | suspending a consistent task keeps its total equal to `recalculateAccumulatedTime` of its sessions, with no open session left |
| Tasks.ResumeConsistent | src/App.jsx:408-416 | starting a consistent task that is not working leaves it consistent, its one open session last and started at `startedAt` |
| Tasks.StartTaskPreservesInv | src/App.jsx:390-419 | when the target is not already 作業中: unique ids, every task consistent, and the target the only 作業中 task afterwards |
| Tasks.PauseTaskPreservesInv | src/App.jsx:422-442 | the invariant holds afterwards and the matching task is 中断中 |
| Tasks.WaitTaskPreservesInv | src/App.jsx:444-464 | the invariant holds afterwards and the matching task is 待ち |
| Tasks.CompleteTaskPreservesInv | src/App.jsx:466-487 | the invariant holds afterwards and the matching task is 完了 with `completedDate` today |
| Tasks.StartOnWorkingTargetBreaksConsistency | src/App.jsx:408-417 | starting a task that is already 作業中 leaves its earlier session open before the new one, so the task is no longer consistent |
| Tasks.UpdateTask | src/App.jsx:489-493 | only the matching task takes the edited field; an unknown id leaves the list unchanged |
| Tasks.UpdateTaskPreservesInv | src/App.jsx:489-493 | editing name, memo, estimate or comment keeps the invariant |
| Tasks.ApplyEdit | src/App.jsx:489-493 | an edit sets exactly the named field; the id, tag, status, dates, timer fields, sessions and order are untouched |
| Tasks.DeleteTask | src/App.jsx:495-498 | exactly the tasks with other ids remain; an unknown id leaves the list unchanged |
| Tasks.DeleteTaskPreservesInv | src/App.jsx:495-498 | deleting keeps the invariant |
| Tasks.UpdateSessions | src/App.jsx:504-515 | only the matching task takes the new sessions and total; an unknown id leaves the list unchanged |
| Tasks.UpdateSessionsPreservesInv | src/App.jsx:504-515 | writing back a list of closed sessions, with the total `recalculateAccumulatedTime` gives, to a task that is not working keeps the collection invariant |
| Tasks.MaxOrder | src/App.jsx:363 | `Math.max` of the orders: no order is larger and one equals it |
| Tasks.MaxOrderOfTag | src/App.jsx:361-364 | the largest order of the tag's tasks: no order of the tag is larger and one of them equals it; -1 when the tag has no task |
| Tasks.Kept | src/App.jsx:358-359 | exactly the proposals not marked for deletion |
| Tasks.RegisterTasks | src/App.jsx:357-383 | the existing tasks, then one new 未着手 task per kept proposal, the k-th with order (largest order of its tag, or -1) + 1 + k |
| Tasks.RegisteredOrdersAfterExisting | src/App.jsx:361-379 | a registered task sorts after every existing task of its tag; registered tasks of one tag keep the proposals' order |
| Tasks.RegisterTasksPreservesInv | src/App.jsx:357-383 | with fresh distinct ids, registration keeps the invariant |
| Tasks.ElapsedTimes | src/App.jsx:188-194 | every task's id has an entry and every entry is some task's id |
| Tasks.ElapsedTimesOfUnique | src/App.jsx:188-194 | with unique ids each task's entry is `calculateElapsedTime` of that task |
| Board.TodayTasks | src/App.jsx:555-562 | exactly the unfinished tasks and the 完了 tasks completed today, all from the collection |
| Board.SortTasks | src/App.jsx:567-573 | a permutation of the list that is sorted by the comparator: unfinished before finished, each part ascending by `order`, 0 when absent |
| Board.SortedPartsCompare | src/App.jsx:569-571 | unfinished tasks sorted by order followed by finished tasks sorted by order are in comparator order |
| Board.TagGroup | src/App.jsx:576 | exactly the tasks carrying the tag |
| Board.TasksByTag | src/App.jsx:564-582 | one column per `tagOrder` entry plus the "" column and no other; each column is the sorted group of its tag |
| Board.TaskInItsColumn | src/App.jsx:575-579 | a task whose tag is listed, or empty, is in its own column |
| Board.UnlistedTagInNoColumn | src/App.jsx:575-579 | a task whose non-empty tag is missing from `tagOrder` is in no column |
| Board.Orders | src/App.jsx:599-600 | every task's order, 0 when absent, in collection order |
| Board.MoveTaskInTag | src/App.jsx:584-608 | same length; every task differs from its old record at most in `order`; an unknown id changes nothing |
| Board.MoveTaskInTagExchanges | src/App.jsx:584-608 | a done task stays put; otherwise, with k the task's place among the column's open tasks, a neighbour index k + dir outside the open tasks changes nothing, and one inside gives the task the neighbour's order and the neighbour the task's, every other task unchanged |
| Board.SwapOrders | src/App.jsx:602-606 | the moved task takes the neighbour's order and the neighbour the task's; every other task is unchanged |
| Board.BoardMember | src/App.jsx:555-582 | every task in a `Column` of `BoardOf` the collection is in the collection |
| Board.SwapOrdersKeepsOrders | src/App.jsx:602-606 | with unique ids, the exchange permutes the orders |
| Board.MoveTaskInTagKeepsOrders | src/App.jsx:584-608 | on the board derived from the collection, the multiset of orders is unchanged by every move |
| Board.MoveDoneTaskIsNoOp | src/App.jsx:589 | moving a 完了 task changes nothing |
| Board.MinOrder | src/App.jsx:613-614 | `Math.min` of the orders: no order is smaller and one equals it |
| Board.AddManualTask | src/App.jsx:610-634 | a blank 未着手 task of the tag at the front, the rest unchanged; its order is one less than the smallest unfinished order of the column (below every one of them, and one less than one of them), and -1 when the column has no unfinished task |
| Board.AddManualTaskPreservesInv | src/App.jsx:610-634 | with a fresh id the lifecycle invariant still holds |
| Board.AddTag | src/App.jsx:517-523 | an input that is empty after trim, or already a tag, changes nothing and keeps the input; otherwise the trimmed name is appended to both lists and the input cleared |
| Board.AddTagPreservesInv | src/App.jsx:517-523 | both lists keep the same names, each once, none empty |
| Board.RemoveTag | src/App.jsx:530-531 | exactly the other names remain, each as often as before |
| Board.DeleteTagStart | src/App.jsx:525-533 | a tag carried by tasks opens the dialog with their count and changes no list; an unused tag leaves both lists |
| Board.ConfirmDeleteTag | src/App.jsx:535-542 | same tasks in the same places, the deleted tag's tasks untagged; the name leaves both lists |
| Board.RemoveTagPreservesInv | src/App.jsx:530-531 | removing a name keeps the two lists in step |
| Board.ConfirmDeleteTagKeepsTasks | src/App.jsx:535-542 | no task is deleted or re-timed, so the lifecycle invariant holds, and no task keeps the deleted tag |
| Board.MovedTag | src/App.jsx:544-553 | same length and the same names: a permutation of the order |
| Board.TagIndex | src/App.jsx:546 | `indexOf`: the first position of the name, or -1 exactly when it is absent |
| Board.MoveTag | src/App.jsx:544-553 | the copy-and-swap on a fresh array gives the swapped order, or the order itself when the new index is out of range |
| Board.MovedTagIndex | src/App.jsx:546-550 | in a list without duplicates, the name ends up at index `idx + dir` |
| Board.MoveTagThereAndBack | src/App.jsx:544-553 | an in-range move puts the name `dir` places on, and the opposite move restores the list |
| Board.MoveTagPreservesInv | src/App.jsx:544-553 | moving keeps the two lists in step |
| Calendar.CalendarDates | src/App.jsx:639-644 | seven day keys, the i-th the UTC date of `now - i` days |
| Calendar.CalendarDatesConsecutive | src/App.jsx:639-644 | the seven keys are today's UTC date and the six before it, so they are distinct |
| Calendar.BuildDates | src/App.jsx:639-644 | the `for` loop collects exactly those seven keys |
| Calendar.Stamp | src/App.jsx:655-658 | each session copied with its owner's `taskId`, in order |
| Calendar.OnDay | src/App.jsx:652-654 | exactly the sessions whose local start date is the given day, each at most as often as in the list |
| Calendar.OnDayAppend | src/App.jsx:654-655 | a session appended to the list is appended to its own day's list only |
| Calendar.CalendarView | src/App.jsx:638-668 | a bucket for each of the seven keys and no other |
| Calendar.PushSessions | src/App.jsx:652-660 | pushing one task's sessions leaves the same buckets, each holding its day's sessions of everything visited so far |
| Calendar.BucketStep | src/App.jsx:653-659 | one push extends the bucket of the session's date, if the view has one, and no other |
| Calendar.SortBuckets | src/App.jsx:663-665 | the same buckets, each replaced by the library sort by start of its sessions |
| Calendar.CalendarData | src/App.jsx:638-668 | the loops build exactly the seven dates and, for each, the day's stamped sessions sorted by start |
| Calendar.AllStampedMember | src/App.jsx:651-658 | every visited session comes from some task's list, stamped with that task's id |
| Calendar.AllStampedHas | src/App.jsx:651-658 | every task's every session is visited, stamped |
| Calendar.CalendarBuckets | src/App.jsx:638-668 | every session whose local date is one of the keys is in that bucket with its owner's id; buckets hold nothing else; each bucket is sorted by start, overlaps kept |
| Calendar.FindTask | src/components/DayCalendarCard.jsx:113 | found exactly when some task has the id, and then it is such a task |
| Calendar.Blocks | src/components/DayCalendarCard.jsx:112-127 | at most one block per session, each for a task of the list |
| Calendar.BlocksAndTotal | src/components/DayCalendarCard.jsx:16-20 | the drawn durations plus the summands of the sessions whose task is missing add up to `totalSeconds` |
| Calendar.BlocksActive | src/components/DayCalendarCard.jsx:112-127 | when every session's task exists, one block per session, active exactly when the session has no end, with its duration equal to its summand in `totalSeconds` |
| Calendar.TotalSecondsIsElapsed | src/components/DayCalendarCard.jsx:16-20 | over a consistent task's sessions `TotalSeconds`, each open session running to `EndOrNow`, equals `calculateElapsedTime` of the task |
| TaskCard.OfferedActions | src/components/TaskCard.jsx:125-151 | delete is always offered, last; start or resume exactly when the task is not working; pause and wait exactly when working; complete exactly when working, paused or waiting |
| TaskCard.OfferedActionsKeepInv | src/components/TaskCard.jsx:125-151 | `Perform` of every button a card offers keeps the collection invariant (distinct ids, at most one working task, well-formed sessions) |
| TaskCard.MoveUpDisabledIsNoOp | src/components/TaskCard.jsx:42-55 | `MoveUpEnabled` is false at the card's own position when it is the first card of its column, and moving it up would leave the tasks unchanged |
| TaskCard.MoveDownDisabledIsNoOp | src/components/TaskCard.jsx:56-69 | `MoveDownEnabled` is false at the card's own position in a column with distinct ids when that card is the last, and moving it down would leave the tasks unchanged |
| TaskCard.LastOpenStaysLast | src/components/TaskCard.jsx:56-69 | an open last card of a column is also the last of the column's open cards, which is what the disabled ↓ relies on |
| TaskCard.EstimateShown | src/components/TaskCard.jsx:91 | the input is empty exactly when the estimate is 0 |
| TaskCard.EstimateEdit | src/components/TaskCard.jsx:92 | a blank or non-numeric entry stores 0; digits store their decimal value |
| TaskCard.EstimateShownRoundTrip | src/components/TaskCard.jsx:91-92 | re-entering the shown estimate stores the same estimate |
| WorkSessionList.AllSessions | src/components/WorkSessionList.jsx:18 | a permutation of the task's sessions, sorted by start |
| WorkSessionList.IsActiveExactly | src/components/WorkSessionList.jsx:96 | in a consistent task `IsActive` holds of a row exactly when the task is working and the row is its last session |
| WorkSessionList.FirstSameSpan | src/components/WorkSessionList.jsx:21-24 | the first index whose start and end equal the row's, or -1 exactly when there is none |
| WorkSessionList.DisplayedRowIsFound | src/components/WorkSessionList.jsx:21-25 | every displayed row is found in the task's own list, so the early return never fires for a row on screen |
| WorkSessionList.UpdatedSessions | src/components/WorkSessionList.jsx:20-29 | nothing when the row is not found; otherwise same length, the found cell replaced by the edit stamped with the task's id, all others unchanged |
| WorkSessionList.HandleUpdateSession | src/components/WorkSessionList.jsx:20-32 | the copy-and-assign on an array emits the updated list with its closed-session total, or nothing when the row is not found |
| WorkSessionList.DeletedSessions | src/components/WorkSessionList.jsx:34-41 | nothing when the row is not found; otherwise the list with the found entry removed and the others in order (one fewer, same multiset less that entry) |
| WorkSessionList.HandleDeleteSession | src/components/WorkSessionList.jsx:34-44 | emits the shortened list with its closed-session total, or nothing when the row is not found |
| WorkSessionList.DeleteSubtractsItsSeconds | src/components/WorkSessionList.jsx:41-43 | the new total is the old one less the removed session's closed seconds |
| WorkSessionList.AddedSessions | src/components/WorkSessionList.jsx:47-48 | the old sessions plus the new one stamped with the task's id, as a multiset, sorted by start; overlaps are not rejected |
| WorkSessionList.HandleAddSession | src/components/WorkSessionList.jsx:46-53 | emits the task's id, the added list and its closed-session total |
| WorkSessionList.AddAddsItsSeconds | src/components/WorkSessionList.jsx:47-51 | the re-sort does not change the total: it grows by exactly the new session's closed seconds |
| WorkSessionList.AddAfterOpenSessionBreaksConsistency | src/components/WorkSessionList.jsx:47-48 | on a working task, a session added after the open one is sorted behind it, so the open session is no longer last |
| WorkSessionList.EditOpenStartBreaksConsistency | src/components/WorkSessionList.jsx:20-31 | moving the start of a working task's open session hands up a list whose last session no longer starts at `startedAt`, so the task is no longer consistent |
| WorkSessionList.IdleSessionsClosed | src/components/WorkSessionList.jsx:18-53 | every session of a consistent task that is not working is closed |
| WorkSessionList.DeleteOnIdleTaskKeepsInv | src/components/WorkSessionList.jsx:34-44 | deleting a displayed row of a task that is not working finds the row and keeps the collection invariant |
| WorkSessionList.AddOnIdleTaskKeepsInv | src/components/WorkSessionList.jsx:46-53 | adding a closed session to a task that is not working keeps the collection invariant |
| WorkSessionList.UpdateOnIdleTaskKeepsInv | src/components/WorkSessionList.jsx:20-32 | updating a displayed row of a task that is not working with a closed session keeps the collection invariant |
| WorkSessionItem.ErrorText | src/components/WorkSessionItem.jsx:35-72 | the error text is empty exactly when the row is accepted |
| WorkSessionItem.Validate | src/components/WorkSessionItem.jsx:35-72 | accepted exactly when the start, read as the source reads it on the row's date, is a valid time not in the future and, for a row that is not active with a non-empty end, the end is a valid time strictly after the start and not in the future |
| WorkSessionItem.ClearedEndIsAccepted | src/components/WorkSessionItem.jsx:43 | an emptied end is judged like an active row: only the start is checked |
| WorkSessionItem.EndShown | src/components/WorkSessionItem.jsx:19 | the end input is empty exactly when the session has no end, and otherwise holds a valid `HH:MM` |
| WorkSessionItem.DurationSec | src/components/WorkSessionItem.jsx:98-102 | the active row shows the floored seconds since its start; any other row shows exactly the seconds it adds to the accumulated time |
| WorkSessionItem.DurationOfActiveRow | src/components/WorkSessionItem.jsx:98-99 | the active row of a consistent working task shows the seconds since the task's `startedAt` |
| WorkSessionItem.UnchangedStartReading | src/components/WorkSessionItem.jsx:74-83 | re-reading the shown start of a minute-aligned session on the row's date gives the same instant at or east of UTC, and one day earlier west of it, so an unedited start is handed up moved there |
| WorkSessionItem.Row.constructor | src/components/WorkSessionItem.jsx:18-20 | the inputs start as the committed start and end times and the error is empty |
| WorkSessionItem.Row.ValidateAndUpdate | src/components/WorkSessionItem.jsx:35-72 | succeeds exactly when the guards accept, leaves the error text of the first failing guard (empty on success) and does not touch the inputs |
| WorkSessionItem.Row.HandleStartBlur | src/components/WorkSessionItem.jsx:74-83 | an accepted start, read as the source reads it on the row's date, is handed up as the session with the new start only when the timestamp changed; a rejected one restores the committed start text and hands up nothing |
| WorkSessionItem.Row.HandleEndBlur | src/components/WorkSessionItem.jsx:85-96 | does nothing on an active row; otherwise an accepted end (empty meaning none) is handed up only when it changed, and a rejected one restores the committed end text |
| AddSessionForm.AddVerdict | src/components/AddSessionForm.jsx:14-41 | accepted exactly when both times are valid, the start, read as the source reads it on the date, strictly earlier than the end, and the end not in the future |
| AddSessionForm.DefaultsAccepted | src/components/AddSessionForm.jsx:10-11 | the default 09:00 to 10:00 is accepted as soon as ten o'clock on the date has passed |
| AddSessionForm.Form.constructor | src/components/AddSessionForm.jsx:10-12 | the inputs start at 09:00 and 10:00 with no error |
| AddSessionForm.Form.HandleAdd | src/components/AddSessionForm.jsx:14-42 | hands up a session exactly when the guards accept, with the two inputs' timestamps as the source reads them on the form's date; the error text is the first failing guard's |
| AddSessionForm.AddedThroughTheList | src/components/WorkSessionList.jsx:46-51 | a session the form adds to a task lies on the local day the reading lands on (the registration date at or east of UTC, the day before west of it), ends after it starts and not after now, is in the new list, and raises the total by its seconds |
| RoutineTaskManager.TodayName | src/components/RoutineTaskManager.jsx:14-16 | today's weekday name is one of 日 to 土, taken from the local date |
| RoutineTaskManager.TodayTemplates | src/components/RoutineTaskManager.jsx:18-45 | filtering by `IsTodayTask` keeps exactly the templates listing today's name, each from the list |
| RoutineTaskManager.OtherTemplates | src/components/RoutineTaskManager.jsx:46 | exactly the templates not listing today's name, each from the list |
| RoutineTaskManager.TemplatesPartition | src/components/RoutineTaskManager.jsx:45-46 | the two lists together hold every template exactly as often as the whole list |
| RoutineTaskManager.Ids | src/components/RoutineTaskManager.jsx:40 | the templates' ids, position by position |
| RoutineTaskManager.Toggled | src/components/RoutineTaskManager.jsx:22-30 | the toggled id changes membership; every other id keeps its membership |
| RoutineTaskManager.ToggleTwice | src/components/RoutineTaskManager.jsx:22-30 | toggling twice restores the set of selected ids, and also the insertion order when the id was not selected |
| RoutineTaskManager.Manager.constructor | src/components/RoutineTaskManager.jsx:12 | the selection starts empty |
| RoutineTaskManager.Manager.ToggleSelect | src/components/RoutineTaskManager.jsx:22-30 | the selection becomes the toggled one and stays free of duplicates |
| RoutineTaskManager.Manager.HandleAddMultiple | src/components/RoutineTaskManager.jsx:32-36 | nothing happens on an empty selection; otherwise the selected ids are handed up in insertion order and the selection is cleared |
| RoutineTaskManager.Manager.HandleAddAllToday | src/components/RoutineTaskManager.jsx:38-42 | nothing is handed up when no template is for today; otherwise their ids in list order |
| RoutineTaskManager.AddAllTodayIds | src/components/RoutineTaskManager.jsx:38-45 | every template scheduled today has its id among those handed up |
| RoutineTaskForm.FormDaysAreTheWeek | src/components/RoutineTaskForm.jsx:19 | the form's seven day buttons name exactly the weekdays the template list matches, each once |
| RoutineTaskForm.ToggledDays | src/components/RoutineTaskForm.jsx:35-40 | the toggled day changes membership; every other day keeps its membership |
| RoutineTaskForm.ToggleDayTwice | src/components/RoutineTaskForm.jsx:35-40 | toggling twice restores the set of days, and the list itself when the day was absent |
| RoutineTaskForm.Form.constructor | src/components/RoutineTaskForm.jsx:10-33 | after the mount effects the fields are the edited template's (or empty); a seven-day template sets the every-day flag and the days 月 to 日 |
| RoutineTaskForm.Form.ToggleDay | src/components/RoutineTaskForm.jsx:35-42 | the day flips, the every-day flag is cleared, the text fields are untouched |
| RoutineTaskForm.Form.SetEveryDay | src/components/RoutineTaskForm.jsx:28-33 | the flag follows the checkbox; turning it on selects the seven days, turning it off keeps the days |
| RoutineTaskForm.Form.HandleSave | src/components/RoutineTaskForm.jsx:44-56 | refused exactly when the name is blank; otherwise the record with trimmed name and memo, the estimate as a number or 0, the tag and the days |
| RoutineTaskForm.SavedNameIsClean | src/components/RoutineTaskForm.jsx:45-50 | a saved name is non-empty, has no whitespace at either end, and trimming it again changes nothing |
| RoutineTaskForm.UntouchedEstimateRoundTrip | src/components/RoutineTaskForm.jsx:12-52 | saving an untouched estimate stores the same non-negative number |
| FallbackParser.UnescapeNewlines | src/App.jsx:314 | never longer than the input; the identity on text with no backslash; no two-character `\n` is left in the result |
| FallbackParser.UnescapeAtFirstPair | src/App.jsx:314 | text without a backslash before the first `\n` is kept, that pair becomes one line break, and the rest is converted in turn |
| FallbackParser.SplitOn | src/App.jsx:315 | at least one piece, none containing the separator |
| FallbackParser.SplitOnJoin | src/App.jsx:315 | joining the pieces with the separator gives the text back |
| FallbackParser.Lines | src/App.jsx:314-315 | every line kept is non-blank and has no line break |
| FallbackParser.StripBullet | src/App.jsx:320 | the result is a suffix of the line; it differs exactly when the line starts with `-`, `•` or `*` and a space, and then only whitespace was dropped after the bullet and the rest starts with a non-space |
| FallbackParser.StripNumber | src/App.jsx:321 | the result is a suffix of the line; it differs exactly when the line starts with digits, then `.` or `)`, then whitespace, and then the rest starts with a non-space |
| FallbackParser.BulletThenNumberLosesBoth | src/App.jsx:319-322 | `- 1. x` cleans to `x` |
| FallbackParser.NumberThenBulletKeepsBullet | src/App.jsx:319-322 | `1. - x` cleans to `- x`: the bullet step runs first |
| FallbackParser.Split | src/App.jsx:325-336 | a split name is under 30 characters; with no usable separator the whole text is the name and the memo is empty |
| FallbackParser.SplitAt | src/App.jsx:328-336 | when separator k is the first usable one, the split is at its first occurrence, both halves trimmed |
| FallbackParser.SplitPoint | src/App.jsx:328-336 | a split happens at a position between 1 and 29 holding the first usable separator, which does not occur earlier |
| FallbackParser.SplitNameMemo | src/App.jsx:325-336 | the loop with `break` yields exactly the split of the first usable separator |
| FallbackParser.Shorten | src/App.jsx:338-342 | a name over 30 characters with no memo becomes its first 27 characters and `...`, the full name moving to the memo; otherwise nothing changes |
| FallbackParser.ParsedNameFits | src/App.jsx:319-342 | every name `ParsedLine` gives has at most 30 characters; a shortened one keeps the cleaned line whole in its memo |
| FallbackParser.UnsplitLineKeepsText | src/App.jsx:325-342 | a line with no usable separator keeps all of its cleaned text, in the name or, when long, in the memo |
| FallbackParser.Records | src/App.jsx:317-350 | one record per line |
| FallbackParser.RecordsAt | src/App.jsx:317-350 | the i-th record is made from the i-th line with `tid` equal to `now + i` |
| FallbackParser.Fallback | src/App.jsx:313-350 | one record per non-blank line |
| FallbackParser.FallbackAt | src/App.jsx:313-350 | the i-th record has the i-th line's name and memo, the first tag or an empty one, `tid` equal to `now + i`, and a name of at most 30 characters |
| FallbackParser.ParseLine | src/App.jsx:319-343 | the statements of one line's callback compute exactly that line's parsed name and memo |
| FallbackParser.ExtractLines | src/App.jsx:317-350 | the `map` loop produces exactly the records of the lines, in order |
| FallbackParser.FallbackExtract | src/App.jsx:313-350 | the fallback branch produces exactly the records of the non-blank lines |
| KvStore.Lookup | api/auth/verify-code.mjs:44-52 | `GET` yields a value exactly when the key holds a live entry, and then that entry's value |
| KvStore.StoredInteger | api/auth/verify-code.mjs:56 | a value counts as an integer only when it is that integer's canonical decimal text |
| KvStore.StoredIntegerOfIntToString | api/auth/verify-code.mjs:56 | the text of any integer is read back as that integer |
| KvStore.IncrKey | api/auth/verify-code.mjs:56 | an absent key becomes "1" with no expiry; on success no other key changes and only the counted key is added |
| KvStore.ExpireKey | api/auth/verify-code.mjs:57 | a live key gets the new expiry and keeps its value; an absent key leaves the store unchanged |
| KvStore.CounterStep | api/auth/verify-code.mjs:56-57 | `INCR` then `EXPIRE` on a counter reading k (absent for 0) succeeds and leaves it reading k + 1 with the new expiry |
| KvStore.Store.constructor | api/auth/verify-code.mjs:4-7 | the store starts empty |
| KvStore.Store.Set | api/auth/send-code.mjs:58-59 | the store becomes the one `SET … EX` describes |
| KvStore.Store.Incr | api/auth/verify-code.mjs:56 | succeeds exactly when the `INCR` function does, and then takes its store; on an error the store is unchanged |
| KvStore.Store.Expire | api/auth/verify-code.mjs:57 | the store becomes the one `EXPIRE` describes |
| KvStore.Store.Del | api/auth/verify-code.mjs:69-70 | the key is removed and nothing else changes |
| SendCode.MethodGate | api/auth/send-code.mjs:24-30 | the request goes on exactly when its method is POST; OPTIONS gets 200 with no content and any other method 405 with the fixed error |
| SendCode.IsValidEmailMatchesPattern | api/auth/send-code.mjs:13-16 | the computed `IsValidEmail` accepts exactly the addresses the regular expression matches |
| SendCode.Normalize | api/auth/send-code.mjs:40 | lower-casing then trimming keeps the length of an address without whitespace |
| SendCode.NormalizedIsClean | api/auth/send-code.mjs:40 | the normalised address has no capital letter and neither starts nor ends with whitespace |
| SendCode.NormalizeIgnoresCaseAndPadding | api/auth/send-code.mjs:40-58 | two addresses that differ only in letter case and surrounding whitespace normalise alike and share the rate-limit and code keys |
| SendCode.RemainingSeconds | api/auth/send-code.mjs:47 | the ceiling of the milliseconds left, in seconds: between 1 and 60 for a send in the last minute |
| SendCode.Cooldown | api/auth/send-code.mjs:43-51 | no stored send time means no wait; a wait, when there is one, is at least one second |
| SendCode.CodeTextIsSixDigits | api/auth/send-code.mjs:55 | every code the generator can return is written as exactly six decimal digits |
| SendCode.SendFor | api/auth/send-code.mjs:43-84 | the store changes only on the 200 reply, which carries the fixed message; 200 is given exactly when no cooldown runs; while one runs, the reply is 429 with the wait in seconds before the retry text, and the store is unchanged |
| SendCode.SendOutcome | api/auth/send-code.mjs:24-84 | the store changes only on success; a missing or invalid address gets 400 with its message and no change; a valid one is handled for its normalised form |
| SendCode.HandleSendCode | api/auth/send-code.mjs:18-85 | the handler's reply and new store are those of the request for some code the generator can pick |
| SendCode.SendForAddress | api/auth/send-code.mjs:40-84 | the cooldown check and the two writes give the reply and store of the accepted request for the picked code |
| SendCode.StoreKeysDistinct | api/auth/send-code.mjs:43-58 | the rate key of one address never equals the code key of any address |
| SendCode.SendStoresCode | api/auth/send-code.mjs:55-59 | an accepted send stores the code for 300 seconds and the send time for 60 seconds, adds at most those two keys and changes no other |
| SendCode.SendStartsCooldown | api/auth/send-code.mjs:43-59 | after a send at t0, another send for the same address is refused exactly while under a minute has passed; the wait is the whole seconds left of that minute, rounded up, and 1 to 60 seconds from t0 on |
| SendCode.AcceptedResponseIsUniform | api/auth/send-code.mjs:80-84 | every accepted address gets the same reply, so it does not reveal whether the address is known |
| VerifyCode.VerifyFor | api/auth/verify-code.mjs:43-75 | 200 exactly when not locked and the stored code is non-empty and equals the one sent, and then the reply carries the token; a locked address gets 429 and no change |
| VerifyCode.VerifyOutcome | api/auth/verify-code.mjs:21-75 | an invalid address gets 400, then a code that is not six digits (`IsSixDigits`, `/^\d{6}$/`) gets 400; no change in either case; otherwise handled for the normalised address |
| VerifyCode.HandleVerifyCode | api/auth/verify-code.mjs:15-81 | the handler's reply and new store are exactly those of the request |
| VerifyCode.VerifyForAddress | api/auth/verify-code.mjs:43-75 | the store commands in their order give exactly the reply and store of the well-formed request |
| VerifyCode.VerifyKeysDistinct | api/auth/verify-code.mjs:44-66 | the code, counter and session keys never collide |
| VerifyCode.FailedAttemptCounts | api/auth/verify-code.mjs:54-59 | below the limit, a wrong or missing code gets 401 and sets the counter to one more, expiring in fifteen minutes; nothing else changes |
| VerifyCode.FailureStep | api/auth/verify-code.mjs:44-59 | within fifteen minutes of the last failure, the next wrong code takes the counter from n to n + 1 |
| VerifyCode.FailuresCount | api/auth/verify-code.mjs:44-59 | five wrong codes in a row, each within fifteen minutes of the previous, each get 401 and leave the counter at their number |
| VerifyCode.LockedByCount | api/auth/verify-code.mjs:44-49 | with the counter at 5 since the last failure, `Locked` holds exactly for the fifteen minutes after it, and every request then gets 429 with no change |
| VerifyCode.LockedAfterFiveFailures | api/auth/verify-code.mjs:43-59 | after those five failures every request is refused until fifteen minutes after the fifth, even with the right code; then the lock is gone |
| VerifyCode.CodeIsSingleUse | api/auth/verify-code.mjs:68-70 | after a successful check the same code for the same address gets 401 |
| VerifyCode.SignInStoresSession | api/auth/verify-code.mjs:62-70 | success maps the token to the address for exactly thirty days and leaves neither the code nor the counter readable |
| VerifyCode.SendKeepsLock | api/auth/send-code.mjs:58-59 | a send does not touch the failure counter, so the lock stays as it was |
| VerifyCode.SentCodeVerifies | api/auth/verify-code.mjs:52-75 | the code a send stored is accepted within its five minutes, unless the address is locked |
| VerifyCode.SentCodeSignsIn | api/auth/send-code.mjs:55-59 | through both handlers: the code a send stores, typed back for the same address within five minutes, signs in unless the address is locked |
| AppTabs.ReviewTasksAsWritten | src/App.jsx:670-682 | each task kept is one of the tasks (the window as written, registration read as UTC midnight) |
| AppTabs.ReviewAsWrittenDropsToday | src/App.jsx:678-681 | east of Greenwich, before the UTC date catches up, a task registered today is left out of the week |
| AppTabs.ReviewAsWrittenExample | src/App.jsx:678-681 | at 23:00 UTC the day before, which is 08:00 on the registration day in UTC+9, the task is not reviewed |
| AppTabs.ReviewTasks | src/App.jsx:670-682 | exactly the tasks whose local registration midnight lies between seven days ago and now |
| AppTabs.ReviewTasksCoversTheWeek | src/App.jsx:670-682 | every task registered today or on one of the six days before is reviewed |
| AppTabs.ReviewReadingsAgreeAtUtc | src/App.jsx:678-681 | at offset zero the corrected window and the window as written keep the same tasks |
| AppTabs.CompletionRate | src/components/AppTabs.jsx:517 | 0 with no tasks; otherwise between 0 and 100 and within half a percent of the exact share |
| AppTabs.CompletionRateExtremes | src/components/AppTabs.jsx:517 | the rate shows 100 exactly when at most half a percent is missing, and 0 exactly when under half a percent is done |
| AppTabs.ReviewSummary | src/components/AppTabs.jsx:515-517 | the number done, the number reviewed and the rate, with done at most reviewed and the rate in 0..100 |
| AppTabs.RollupRow | src/components/AppTabs.jsx:553-558 | exactly the review tasks of the row's tag (untagged for the synthetic row), the number done among them (the length of their 完了 filter), and the sum of their elapsed times with missing ones as 0 |
| AppTabs.Rollup | src/components/AppTabs.jsx:553 | one row per tag, in order, and a last row for untagged tasks |
| AppTabs.RollupUntaggedRow | src/components/AppTabs.jsx:553-556 | a review task is in the last row exactly when it has no tag |
| AppTabs.RollupLabelCollision | src/components/AppTabs.jsx:553-556 | a real tag named タグなし gets the untagged row's tasks instead of its own |
| AppTabs.RollupRowsCover | src/components/AppTabs.jsx:553-558 | when no tag is named タグなし, every review task whose tag is listed or empty appears in some row |
| AppTabs.RollupRowsDisjoint | src/components/AppTabs.jsx:553-558 | with distinct, non-empty tags and none named タグなし, no review task appears in two rows |
| AppTabs.SortByRegisteredDesc | src/components/AppTabs.jsx:450-451 | the database table lists a permutation of the filtered tasks, newest registration first |
| AppTabs.TagGroupNonEmpty | src/App.jsx:564-582 | a tag's group is non-empty exactly when some task carries that tag |
| AppTabs.UntaggedColumnShownExactly | src/components/AppTabs.jsx:304 | the untagged column appears exactly when some task of today's board has no tag |
| Text.Trim | src/components/RoutineTaskForm.jsx:45-51 | never longer; empty exactly for blank text; otherwise starts and ends with a non-space; the identity on text without whitespace; the contiguous slice of the text after its leading whitespace |
| Text.TrimIdempotent | src/components/RoutineTaskForm.jsx:45-51 | trimming twice is trimming once |
| Text.TrimIsInnerSlice | src/components/RoutineTaskForm.jsx:45-51 | the text is the trimmed result surrounded by whitespace only: everything before and after the kept slice is whitespace |
| Text.TrimIgnoresPadding | api/auth/send-code.mjs:40 | trimming ignores whitespace added at either end |
| Text.NatToString | src/utils/formatters.js:4-6 | at least one decimal digit, one digit exactly below 10, two digits from 10 to 99, and no leading zero except for 0 |
| Text.DigitsValueOfNatToString | src/utils/formatters.js:66-67 | reading the decimal text of n back with `parseInt(…, 10)` gives n |
| Text.Pad2 | src/utils/formatters.js:4-6 | `padStart(2, '0')` of a number: all digits, at least two of them, exactly two below 100 |
| Text.Pad2Value | src/utils/formatters.js:58-67 | the padded text reads back as the same number |
| Text.IndexOf | src/App.jsx:330 | the first position of the character, or -1 exactly when it does not occur |
| Text.ToLowerAscii | api/auth/send-code.mjs:40 | same length, each character lowered on its own |
| Text.ToNumber | src/components/TaskCard.jsx:92 | blank text is 0; plain decimal digits are their value |
| Text.ParseIntOfIntToString | api/auth/send-code.mjs:45-59 | `ParseInt` reads the send time written with `toString()` back as the same integer |
| Text.SixDigitRendering | api/auth/send-code.mjs:55 | every number from 100000 to 999999 is written with exactly six digits |
| Collections.SortBy | src/components/WorkSessionList.jsx:18 | a library sort by key: a permutation of the list, ordered by the key |
| Collections.SortByStable | src/App.jsx:663-665 | the sort is stable: the elements with any one key keep their relative order |
| Collections.Filter | src/App.jsx:555-562 | `filter`: every kept element is from the list and passes the test |

## Left out

- The model calls (Anthropic and Gemini) for extraction and review, and the serverless wrappers around them: foreign services. Only the local fallback parser is modelled.
- Loading, migrating and saving state (local storage and the task endpoints): persistence plumbing with no logic of its own.
- The one-second timer tick and the page-visibility handler: scheduling and browser events. `now` is a parameter of every operation instead.
- The review tab's month window, which uses `setMonth`: calendar-month arithmetic is not modelled. Only the week window is.
- The database tab's search and status filters, which fold Unicode case. The table's order is modelled.
- Daylight-saving time: every local date uses one fixed UTC offset.
- Formatters.GetDateString: the day-key-to-civil-date conversion is proved field by field, and its calendar arithmetic is pinned down by fixed dates. It is not proved against `Date` for all days.
- The pixel layout of the calendar card (fractional hours and heights): floating point. The blocks, durations, active flags and task lookup are modelled.
- The sign-in hook and the login dialog (fetch, local storage, UI steps): client plumbing.
- The CORS headers and mail delivery (Resend) in the sign-in endpoints. The `500` replies for failures thrown by the store or the mailer are not modelled, except an `INCR` on a non-integer value.
- KvStore.IncrKey: the store's 64-bit range for counters is not modelled; counters never come near it.
- KvStore.Lookup: an entry expires at exactly its expiry time (`now < expiresAt` is live). The store's sub-millisecond timing is not modelled.
- The store client's decoding of values on `GET`. The model's store returns the stored text unchanged, and the sign-in lemmas rest on that. A client that turned the six-digit code text back into a number would make the strict comparison at api/auth/verify-code.mjs:54 refuse every code; the client library is not part of this model, so that case is not captured.
- The request body's JSON types: `email` and `code` are optional strings.
- The uniqueness of `crypto.randomUUID()` is not modelled: the token is a parameter.
- Text.ToNumber: only decimal integers with an optional sign are converted. Fractions, exponents, hex and `Infinity` are outside the model, since the estimate input holds whole minutes.
- Text.ParseInt: the `0x` prefix that `parseInt` accepts without a radix is not modelled. The stored values it reads are written by the endpoints as decimal text.
- Text.ToLowerAscii: only ASCII letters are lowered. `toLowerCase` on other scripts is not modelled.
- String lengths count characters. JavaScript counts UTF-16 units, so the parser's 30- and 27-character limits differ for characters outside the Basic Multilingual Plane.
- The review rate is computed exactly as a rounded ratio of integers, not in floating point.
- Tasks.RegisterTasks: registration copies no estimate from any proposal, so an estimate the user typed into the preview is dropped. The source leaves the field out of the new task, and the card then shows it empty; the model gives the new task 0, which `estimatedMinutes || ''` shows the same way. The model's proposals carry no estimate for the same reason.
- Board.MoveTag: requires the name to be in the column order. The board only calls it for a listed column. With an absent name, `indexOf` gives -1 and the swap would put `undefined` in the first cell.
- Tasks.StartTaskPreservesInv: requires that the target is not already 作業中. The card never offers Start on a working task, and Tasks.StartOnWorkingTargetBreaksConsistency shows what happens when it is.
- The invariant lemmas also take `now > 0`, as `Date.now()` always is.
- Re-synchronising a session row's inputs when its props change (the `useEffect` in the row): with `session` fixed for the row's lifetime this is the constructor.
- Each handler reads `Date.now()` once. The source reads it separately for the end and start checks; the model uses one `now`.

## Findings

| source | as written | input that shows it | evidently intended | confidence | as-written member | corrected member |
|---|---|---|---|---|---|---|
| src/utils/formatters.js:48-53 | `new Date(dateString)` is UTC midnight of the date, and `setHours` then sets the local time of whatever local day that instant falls on | UTC-5, "10:00" on 2024-05-10 gives 10:00 on 2024-05-09 | the time of day on the named local date | not executed | Formatters.AsWrittenShiftsWestOfUtc, WorkSessionItem.UnchangedStartReading | Formatters.TimeStringToTimestamp, Formatters.TimeStringRoundTrip |
| src/App.jsx:670-682 | `new Date(t.registeredDate)` is UTC midnight of the registration date, compared with the local clock | UTC+9 at 08:00 on the registration day: UTC midnight of that date is still an hour ahead, so the task is left out of the week | a task registered today is reviewed | not executed | AppTabs.ReviewAsWrittenDropsToday, AppTabs.ReviewAsWrittenExample | AppTabs.ReviewTasks, AppTabs.ReviewTasksCoversTheWeek |
