/**
 * One editable row of the session history (src/components/WorkSessionItem.jsx): two time
 * inputs whose text is component state, checked on blur and either handed up as an updated
 * session or reverted to the committed value.
 */
module WorkSessionItem {
  import opened Wrappers
  import opened Model
  import opened Formatters
  import Tasks

  /** The outcome of the guard chain shared with the add form. */
  datatype Verdict = Accepted | BadStart | BadEnd | StartNotBeforeEnd | InFuture

  /** The message each rejection puts in `error`. */
  function ErrorText(v: Verdict): (msg: string)
    ensures msg == "" <==> v == Accepted
  {
    match v
    case Accepted => ""
    case BadStart => "開始時刻の形式が不正です"
    case BadEnd => "終了時刻の形式が不正です"
    case StartNotBeforeEnd => "開始は終了より前にしてください"
    case InFuture => "未来の時刻は設定できません"
  }

  /**
   * `validateAndUpdate(newStart, newEnd)` as a value: the first guard that fails. The end is
   * checked only for a row that is not active and whose end text is not empty. Accepted are
   * exactly a valid start not in the future, with a valid later end not in the future when one
   * is checked.
   */
  function Validate(newStart: string, newEnd: string, isActive: bool, day: DayKey, off: TzOffset, now: int): (v: Verdict)
    ensures v == Accepted <==>
      IsValidTimeString(newStart) && TimeStringToTimestampAsWritten(newStart, day, off) <= now
      && (!isActive && newEnd != "" ==>
            IsValidTimeString(newEnd)
            && TimeStringToTimestampAsWritten(newStart, day, off) < TimeStringToTimestampAsWritten(newEnd, day, off) <= now)
  {
    if !IsValidTimeString(newStart) then BadStart
    else if !isActive && newEnd != "" && !IsValidTimeString(newEnd) then BadEnd
    else if !isActive && newEnd != "" && TimeStringToTimestampAsWritten(newStart, day, off) >= TimeStringToTimestampAsWritten(newEnd, day, off) then StartNotBeforeEnd
    else if !isActive && newEnd != "" && TimeStringToTimestampAsWritten(newEnd, day, off) > now then InFuture
    else if TimeStringToTimestampAsWritten(newStart, day, off) > now then InFuture
    else Accepted
  }

  /** Clearing the end of a row that is not active is accepted whenever its start is. */
  lemma ClearedEndIsAccepted(newStart: string, day: DayKey, off: TzOffset, now: int)
    ensures Validate(newStart, "", false, day, off, now) == Validate(newStart, "", true, day, off, now)
  {
  }

  /** `session.end ? timestampToTimeString(session.end) : ''`. */
  function EndShown(s: Session, off: TzOffset): (r: string)
    ensures r == "" <==> !Truthy(s.end)
    ensures r != "" ==> IsValidTimeString(r)
  {
    if Truthy(s.end) then TimestampToTimeString(s.end.value, off) else ""
  }

  /**
   * What the row shows as its duration: the floored seconds since the start for the active
   * row, and otherwise exactly what the session adds to `accumulatedTime`.
   */
  function DurationSec(s: Session, isActive: bool, now: int): (r: int)
    ensures isActive ==> r * 1000 <= now - s.start < r * 1000 + 1000
    ensures !isActive ==> r == ClosedSeconds(s)
  {
    if isActive then (now - s.start) / 1000
    else if Truthy(s.end) then (s.end.value - s.start) / 1000
    else 0
  }

  /** The active row of a consistent working task shows the seconds since `startedAt`. */
  lemma DurationOfActiveRow(t: Task, now: int)
    requires Tasks.TaskConsistent(t) && t.status == Working
    ensures DurationSec(t.workSessions[|t.workSessions| - 1], true, now) == Tasks.ElapsedSinceStart(t, now)
  {
  }

  /**
   * Re-reading the shown start of a minute-aligned session on the row's date gives the same
   * instant east of Greenwich and at UTC, and the instant one day earlier west of it, so there
   * `handleStartBlur` hands up a moved session although the text was not edited.
   */
  lemma UnchangedStartReading(s: Session, off: TzOffset)
    requires (s.start + off) % MinuteMs == 0
    ensures TimeStringToTimestampAsWritten(TimestampToTimeString(s.start, off), LocalDay(s.start, off), off)
      == if off >= 0 then s.start else s.start - DayMs
  {
    var text, d := TimestampToTimeString(s.start, off), LocalDay(s.start, off);
    TimestampRoundTrip(s.start, off);
    if off < 0 {
      AsWrittenShiftsWestOfUtc(text, d, off);
    } else {
      AsWrittenAgreesEastOfUtc(text, d, off);
    }
  }

  class Row {
    /** The committed session and the props it was rendered with. */
    const session: Session
    const isActive: bool
    const off: TzOffset
    /** The input texts and the message under them. */
    var startTime: string
    var endTime: string
    var error: string

    /** `dateString = getDateString(session.start)`: the row's local date. */
    function Day(): DayKey
    {
      LocalDay(session.start, off)
    }

    constructor(session: Session, isActive: bool, off: TzOffset)
      ensures this.session == session && this.isActive == isActive && this.off == off
      ensures startTime == TimestampToTimeString(session.start, off)
      ensures endTime == EndShown(session, off) && error == ""
    {
      this.session := session;
      this.isActive := isActive;
      this.off := off;
      startTime := TimestampToTimeString(session.start, off);
      endTime := EndShown(session, off);
      error := "";
    }

    /** Clears `error`, then runs the guards in order, setting `error` and returning false at the first that fails. */
    method ValidateAndUpdate(newStart: string, newEnd: string, now: int) returns (ok: bool)
      modifies this
      ensures ok <==> Validate(newStart, newEnd, isActive, Day(), off, now) == Accepted
      ensures error == ErrorText(Validate(newStart, newEnd, isActive, Day(), off, now))
      ensures startTime == old(startTime) && endTime == old(endTime)
    {
      error := "";
      if !IsValidTimeString(newStart) {
        error := "開始時刻の形式が不正です";
        return false;
      }
      if !isActive && newEnd != "" {
        if !IsValidTimeString(newEnd) {
          error := "終了時刻の形式が不正です";
          return false;
        }
        var startTs := TimeStringToTimestampAsWritten(newStart, Day(), off);
        var endTs := TimeStringToTimestampAsWritten(newEnd, Day(), off);
        if startTs >= endTs {
          error := "開始は終了より前にしてください";
          return false;
        }
        if endTs > now {
          error := "未来の時刻は設定できません";
          return false;
        }
      }
      var startTs := TimeStringToTimestampAsWritten(newStart, Day(), off);
      if startTs > now {
        error := "未来の時刻は設定できません";
        return false;
      }
      return true;
    }

    /**
     * `handleStartBlur`: an accepted start is handed up only when its timestamp differs from the
     * committed one; a rejected start puts the committed time back in the input.
     */
    method HandleStartBlur(now: int) returns (emit: Option<Session>)
      modifies this
      ensures var v := Validate(old(startTime), old(endTime), isActive, Day(), off, now);
        error == ErrorText(v) && endTime == old(endTime)
        && (v == Accepted ==>
              startTime == old(startTime)
              && var ts := TimeStringToTimestampAsWritten(old(startTime), Day(), off);
                 emit == if ts != session.start then Some(session.(start := ts)) else None)
        && (v != Accepted ==> startTime == TimestampToTimeString(session.start, off) && emit == None)
    {
      var ok := ValidateAndUpdate(startTime, endTime, now);
      if ok {
        var newStart := TimeStringToTimestampAsWritten(startTime, Day(), off);
        if newStart != session.start {
          return Some(session.(start := newStart));
        }
        return None;
      }
      startTime := TimestampToTimeString(session.start, off);
      return None;
    }

    /**
     * `handleEndBlur`: nothing at all for an active row; otherwise an accepted end (empty text
     * meaning no end) is handed up only when it differs, and a rejected end is reverted.
     */
    method HandleEndBlur(now: int) returns (emit: Option<Session>)
      modifies this
      ensures isActive ==> emit == None && startTime == old(startTime) && endTime == old(endTime) && error == old(error)
      ensures !isActive ==>
        var v := Validate(old(startTime), old(endTime), false, Day(), off, now);
        error == ErrorText(v) && startTime == old(startTime)
        && (v == Accepted ==>
              endTime == old(endTime)
              && var newEnd := if old(endTime) != "" then Some(TimeStringToTimestampAsWritten(old(endTime), Day(), off)) else None;
                 emit == if newEnd != session.end then Some(session.(end := newEnd)) else None)
        && (v != Accepted ==> endTime == EndShown(session, off) && emit == None)
    {
      if isActive {
        return None;
      }
      var ok := ValidateAndUpdate(startTime, endTime, now);
      if ok {
        var newEnd := if endTime != "" then Some(TimeStringToTimestampAsWritten(endTime, Day(), off)) else None;
        if newEnd != session.end {
          return Some(session.(end := newEnd));
        }
        return None;
      }
      endTime := EndShown(session, off);
      return None;
    }
  }
}
