/**
 * The routine template list (src/components/RoutineTaskManager.jsx): templates scheduled on
 * today's weekday are listed apart from the others, and a selection of templates is kept to
 * add several to today at once.
 */
module RoutineTaskManager {
  import opened Collections
  import opened Wrappers
  import opened Model
  import opened Formatters

  /** `dayNames[new Date().getDay()]`: today's weekday name in the table 日..土. */
  function TodayName(now: int, off: TzOffset): (name: string)
    ensures name in WeekdayNames
  {
    WeekdayNames[DayOfWeek(LocalDay(now, off))]
  }

  /** `isTodayTask`: the template lists today's weekday name. */
  function IsTodayTask(todayName: string): Routine -> bool
  {
    (r: Routine) => todayName in r.days
  }

  /** The first list: templates for today, in their order. */
  function TodayTemplates(routines: seq<Routine>, todayName: string): (r: seq<Routine>)
    ensures forall i :: 0 <= i < |r| ==> r[i] in routines && todayName in r[i].days
    ensures forall i :: 0 <= i < |routines| && todayName in routines[i].days ==> routines[i] in r
  {
    Filter(routines, IsTodayTask(todayName))
  }

  /** The second list: every other template, in their order. */
  function OtherTemplates(routines: seq<Routine>, todayName: string): (r: seq<Routine>)
    ensures forall i :: 0 <= i < |r| ==> r[i] in routines && todayName !in r[i].days
    ensures forall i :: 0 <= i < |routines| && todayName !in routines[i].days ==> routines[i] in r
  {
    Filter(routines, Not(IsTodayTask(todayName)))
  }

  /** The two lists split the templates: together they hold each template exactly as often as the whole list. */
  lemma TemplatesPartition(routines: seq<Routine>, todayName: string)
    ensures multiset(TodayTemplates(routines, todayName)) + multiset(OtherTemplates(routines, todayName)) == multiset(routines)
  {
    FilterSplit(routines, IsTodayTask(todayName));
  }

  /** The ids of a list of templates, in order. */
  function Ids(rs: seq<Routine>): (ids: seq<int>)
    ensures |ids| == |rs| && forall i :: 0 <= i < |rs| ==> ids[i] == rs[i].id
  {
    seq(|rs|, i requires 0 <= i < |rs| => rs[i].id)
  }

  /** `toggleSelect` on the selection in insertion order: a selected id leaves, another joins at the end. */
  function Toggled(selected: seq<int>, id: int): (r: seq<int>)
    ensures id in r <==> id !in selected
    ensures forall x :: x != id ==> (x in r <==> x in selected)
  {
    if id in selected then WithoutMembers(selected, id); Without(selected, id) else selected + [id]
  }

  /** Toggling twice restores the set of selected ids; when the id was not selected it restores the order as well. */
  lemma ToggleTwice(selected: seq<int>, id: int)
    requires forall i, j :: 0 <= i < j < |selected| ==> selected[i] != selected[j]
    ensures forall x :: x in Toggled(Toggled(selected, id), id) <==> x in selected
    ensures id !in selected ==> Toggled(Toggled(selected, id), id) == selected
  {
    if id !in selected {
      WithoutAppended(selected, id);
    }
  }

  class Manager {
    /** `selectedIds`, in the order the ids were added (the iteration order of a `Set`). */
    var selected: seq<int>

    ghost predicate Valid()
      reads this
    {
      forall i, j :: 0 <= i < j < |selected| ==> selected[i] != selected[j]
    }

    constructor()
      ensures Valid() && selected == []
    {
      selected := [];
    }

    method ToggleSelect(id: int)
      requires Valid()
      modifies this
      ensures Valid() && selected == Toggled(old(selected), id)
    {
      if id in selected {
        WithoutDistinct(selected, id);
        selected := Without(selected, id);
      } else {
        selected := selected + [id];
      }
    }

    /** `handleAddMultiple`: nothing on an empty selection, else every selected id, then an empty selection. */
    method HandleAddMultiple() returns (emit: Option<seq<int>>)
      requires Valid()
      modifies this
      ensures old(selected) == [] ==> emit == None && selected == []
      ensures old(selected) != [] ==> emit == Some(old(selected)) && selected == []
      ensures Valid()
    {
      if |selected| == 0 {
        return None;
      }
      emit := Some(selected);
      selected := [];
    }

    /** `handleAddAllToday`: nothing when no template is for today, else their ids; the selection is kept. */
    method HandleAddAllToday(routines: seq<Routine>, todayName: string) returns (emit: Option<seq<int>>)
      ensures var today := TodayTemplates(routines, todayName);
        emit == if |today| == 0 then None else Some(Ids(today))
    {
      var today := TodayTemplates(routines, todayName);
      if |today| == 0 {
        return None;
      }
      emit := Some(Ids(today));
    }
  }

  /** The ids `handleAddAllToday` passes are exactly those of the templates for today. */
  lemma AddAllTodayIds(routines: seq<Routine>, todayName: string, k: nat)
    requires k < |routines| && todayName in routines[k].days
    ensures routines[k].id in Ids(TodayTemplates(routines, todayName))
  {
    var today := TodayTemplates(routines, todayName);
    var i :| 0 <= i < |today| && today[i] == routines[k];
    assert Ids(today)[i] == routines[k].id;
  }
}
