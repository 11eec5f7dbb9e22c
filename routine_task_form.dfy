/**
 * The routine template form (src/components/RoutineTaskForm.jsx): text inputs, a weekday
 * toggle per day, a "毎日" flag that selects all seven days, and a save that trims and
 * normalises the record.
 */
module RoutineTaskForm {
  import opened Wrappers
  import opened Collections
  import opened Text
  import opened Model
  import opened Formatters

  /** The form's weekday buttons, Monday first. */
  const FormDayNames: seq<string> := ["月", "火", "水", "木", "金", "土", "日"]

  /** The form names the same seven days the template list matches against today, each once. */
  lemma FormDaysAreTheWeek()
    ensures forall w :: 0 <= w < 7 ==> WeekdayNames[w] in FormDayNames
    ensures forall d :: d in FormDayNames ==> d in WeekdayNames
    ensures forall i, j :: 0 <= i < j < |FormDayNames| ==> FormDayNames[i] != FormDayNames[j]
  {
  }

  /** `toggleDay`'s functional update: a present day is filtered out, an absent one appended. */
  function ToggledDays(days: seq<string>, day: string): (r: seq<string>)
    ensures day in r <==> day !in days
    ensures forall d :: d != day ==> (d in r <==> d in days)
  {
    if day in days then WithoutMembers(days, day); Without(days, day) else days + [day]
  }

  /** The record `handleSave` passes to `onSave`. */
  datatype Draft = Draft(name: string, memo: string, estimatedMinutes: int, tag: string, days: seq<string>)

  class Form {
    var name: string
    var memo: string
    /** The estimate input's text (`Number(...)` is applied on save). */
    var estimatedMinutes: string
    var tag: string
    var days: seq<string>
    var isEveryDay: bool

    /**
     * The state once the mount effects have run: the fields of the template being edited (or
     * empty ones), and when it has seven days the every-day flag on and the days reset to 月..日.
     */
    constructor(initial: Option<Routine>)
      ensures initial.None? ==> name == "" && memo == "" && estimatedMinutes == "0" && tag == "" && days == [] && !isEveryDay
      ensures initial.Some? ==>
        name == initial.value.name && memo == initial.value.memo && tag == initial.value.tag
        && estimatedMinutes == IntToString(initial.value.estimatedMinutes)
        && isEveryDay == (|initial.value.days| == 7)
        && days == if |initial.value.days| == 7 then FormDayNames else initial.value.days
    {
      if initial.None? {
        name, memo, estimatedMinutes, tag, days, isEveryDay := "", "", "0", "", [], false;
      } else {
        var r := initial.value;
        name, memo, estimatedMinutes, tag := r.name, r.memo, IntToString(r.estimatedMinutes), r.tag;
        var everyDay := false;
        if |r.days| == 7 {
          everyDay := true;
        }
        days, isEveryDay := if everyDay then FormDayNames else r.days, everyDay;
      }
    }

    /** `toggleDay(day)`: the day flips and the every-day flag is always cleared. */
    method ToggleDay(day: string)
      modifies this
      ensures days == ToggledDays(old(days), day) && !isEveryDay
      ensures name == old(name) && memo == old(memo) && estimatedMinutes == old(estimatedMinutes) && tag == old(tag)
    {
      days := ToggledDays(days, day);
      isEveryDay := false;
    }

    /** The "毎日" checkbox: on selects all seven days in form order; off keeps the days. */
    method SetEveryDay(on: bool)
      modifies this
      ensures isEveryDay == on
      ensures days == if on then FormDayNames else old(days)
      ensures name == old(name) && memo == old(memo) && estimatedMinutes == old(estimatedMinutes) && tag == old(tag)
    {
      isEveryDay := on;
      if on {
        days := FormDayNames;
      }
    }

    /** `handleSave`: refused for a blank name, else the trimmed, normalised record. */
    method HandleSave() returns (saved: Option<Draft>)
      ensures saved.None? <==> IsBlank(name)
      ensures saved.Some? ==> saved.value == Draft(Trim(name), Trim(memo), OrZero(ToNumber(estimatedMinutes)), tag, days)
    {
      var trimmed := Trim(name);
      if trimmed == "" {
        return None;
      }
      saved := Some(Draft(trimmed, Trim(memo), OrZero(ToNumber(estimatedMinutes)), tag, days));
    }
  }

  /** A saved name is never blank and has no surrounding whitespace. */
  lemma SavedNameIsClean(name: string)
    requires !IsBlank(name)
    ensures Trim(name) != "" && !IsWhitespace(Trim(name)[0]) && !IsWhitespace(Trim(name)[|Trim(name)| - 1])
    ensures Trim(Trim(name)) == Trim(name)
  {
    TrimIdempotent(name);
  }

  /** Editing a template without touching the estimate saves the same non-negative estimate. */
  lemma UntouchedEstimateRoundTrip(m: nat)
    ensures OrZero(ToNumber(IntToString(m))) == m
  {
    var s := NatToString(m);
    DigitsValueOfNatToString(m);
    assert IntToString(m) == s;
    assert forall k :: 0 <= k < |s| ==> !IsWhitespace(s[k]);
  }

  /** Toggling an absent day twice restores the list; toggling any day twice restores the set of days. */
  lemma ToggleDayTwice(days: seq<string>, day: string)
    requires forall i, j :: 0 <= i < j < |days| ==> days[i] != days[j]
    ensures forall d :: d in ToggledDays(ToggledDays(days, day), day) <==> d in days
    ensures day !in days ==> ToggledDays(ToggledDays(days, day), day) == days
  {
    if day !in days {
      WithoutAppended(days, day);
    }
  }
}
