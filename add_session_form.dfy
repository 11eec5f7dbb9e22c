/**
 * The form that adds a past session by hand (src/components/AddSessionForm.jsx): two time
 * inputs on a fixed date, a chain of guards that each set the error text and stop, and on
 * success a closed session handed to the list.
 */
module AddSessionForm {
  import opened Wrappers
  import opened Model
  import opened Text
  import opened Formatters
  import opened WorkSessionItem
  import WorkSessionList

  /** `onAdd({ start: startTs, end: endTs })`. */
  datatype NewSession = NewSession(start: int, end: int)

  /**
   * `handleAdd`'s guards as a value: the first that fails. Accepted are exactly two valid
   * times, the start strictly earlier, the end not in the future.
   */
  function AddVerdict(startTime: string, endTime: string, day: DayKey, off: TzOffset, now: int): (v: Verdict)
    ensures v == Accepted <==>
      IsValidTimeString(startTime) && IsValidTimeString(endTime)
      && TimeStringToTimestampAsWritten(startTime, day, off) < TimeStringToTimestampAsWritten(endTime, day, off) <= now
  {
    if !IsValidTimeString(startTime) then BadStart
    else if !IsValidTimeString(endTime) then BadEnd
    else if TimeStringToTimestampAsWritten(startTime, day, off) >= TimeStringToTimestampAsWritten(endTime, day, off) then StartNotBeforeEnd
    else if TimeStringToTimestampAsWritten(endTime, day, off) > now then InFuture
    else Accepted
  }

  /** The defaults 09:00 and 10:00 are accepted as soon as ten o'clock on the date has passed. */
  lemma DefaultsAccepted(day: DayKey, off: TzOffset, now: int)
    ensures IsValidTimeString("09:00") && IsValidTimeString("10:00")
    ensures AddVerdict("09:00", "10:00", day, off, now) == Accepted <==> TimeStringToTimestampAsWritten("10:00", day, off) <= now
  {
    NineOClock();
    TenOClock();
  }

  class Form {
    /** `dateString`: the date the new session is placed on. */
    const day: DayKey
    const off: TzOffset
    var startTime: string
    var endTime: string
    var error: string

    constructor(day: DayKey, off: TzOffset)
      ensures this.day == day && this.off == off
      ensures startTime == "09:00" && endTime == "10:00" && error == ""
    {
      this.day := day;
      this.off := off;
      startTime := "09:00";
      endTime := "10:00";
      error := "";
    }

    /** `handleAdd`: the guards in order; when all pass, the session from the two inputs is handed up. */
    method HandleAdd(now: int) returns (emit: Option<NewSession>)
      modifies this
      ensures var v := AddVerdict(startTime, endTime, day, off, now);
        error == ErrorText(v)
        && (v == Accepted <==> emit.Some?)
        && (v == Accepted ==> emit.value == NewSession(TimeStringToTimestampAsWritten(startTime, day, off), TimeStringToTimestampAsWritten(endTime, day, off)))
      ensures startTime == old(startTime) && endTime == old(endTime)
    {
      error := "";
      if !IsValidTimeString(startTime) {
        error := "開始時刻の形式が不正です";
        return None;
      }
      if !IsValidTimeString(endTime) {
        error := "終了時刻の形式が不正です";
        return None;
      }
      var startTs := TimeStringToTimestampAsWritten(startTime, day, off);
      var endTs := TimeStringToTimestampAsWritten(endTime, day, off);
      if startTs >= endTs {
        error := "開始は終了より前にしてください";
        return None;
      }
      if endTs > now {
        error := "未来の時刻は設定できません";
        return None;
      }
      return Some(NewSession(startTs, endTs));
    }
  }

  /**
   * A session the form hands to the list of task `t` (whose form is opened on
   * `t.registeredDate`, a date after 1970-01-01) is closed, lies on the local day the
   * reading lands on (the registration date east of Greenwich and at UTC, the day before
   * west of it), ends after it starts and not after now, and adds its floored seconds to the
   * recomputed total.
   */
  lemma AddedThroughTheList(t: Task, startTime: string, endTime: string, off: TzOffset, now: int)
    requires t.registeredDate > 0 && AddVerdict(startTime, endTime, t.registeredDate, off, now) == Accepted
    ensures var n := NewSession(TimeStringToTimestampAsWritten(startTime, t.registeredDate, off), TimeStringToTimestampAsWritten(endTime, t.registeredDate, off));
      var ws := WorkSessionList.AddedSessions(t.workSessions, Session(n.start, Some(n.end), t.id), t.id);
      LocalDay(n.start, off) == SourceDay(t.registeredDate, off) && LocalDay(n.end, off) == SourceDay(t.registeredDate, off)
      && (off >= 0 ==> LocalDay(n.start, off) == t.registeredDate)
      && (off < 0 ==> LocalDay(n.start, off) == t.registeredDate - 1)
      && n.start < n.end <= now
      && Session(n.start, Some(n.end), t.id) in multiset(ws)
      && SumClosed(ws) == SumClosed(t.workSessions) + (n.end - n.start) / 1000
  {
    var n := NewSession(TimeStringToTimestampAsWritten(startTime, t.registeredDate, off), TimeStringToTimestampAsWritten(endTime, t.registeredDate, off));
    var s := Session(n.start, Some(n.end), t.id);
    WorkSessionList.AddAddsItsSeconds(t.workSessions, s, t.id);
    assert s.(taskId := t.id) == s;
  }
}
