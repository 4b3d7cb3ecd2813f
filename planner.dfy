/**
 * The planner's derived values, recomputed from the catalog and the selected
 * keys: the selected courses, their schedule items and the conflict blocks.
 */
module Planner {
  import opened Schedule
  import opened Selection
  import opened Conflicts
  import opened ConflictProperties

  /** `scheduleItems` for the current selection. */
  function PlannedItems(catalog: seq<Course>, keys: seq<string>): seq<ScheduleItem>
    requires AllWellFormed(SelectedCourses(catalog, keys))
  {
    Expansion(SelectedCourses(catalog, keys))
  }

  /** Computes `selectedCourses`, then `scheduleItems`, then `conflictBlocks`. */
  method PlanSchedule(catalog: seq<Course>, keys: seq<string>) returns (items: seq<ScheduleItem>, blocks: seq<ConflictBlock>)
    requires AllWellFormed(SelectedCourses(catalog, keys))
    ensures items == PlannedItems(catalog, keys)
    ensures blocks == AllBlocks(items)
  {
    var selected := SelectedCourses(catalog, keys);
    items := ExpandItems(selected);
    ExpansionItemsSound(selected);
    forall i | 0 <= i < |items| ensures items[i].dayIndex < DayCount {
      assert items[i] in items;
    }
    blocks := ComputeConflictBlocks(items);
  }

  /** Every item comes from a catalog course whose key is selected, on a weekday it meets. */
  lemma PlannedItemsSelected(catalog: seq<Course>, keys: seq<string>)
    requires AllWellFormed(SelectedCourses(catalog, keys))
    ensures forall it :: it in PlannedItems(catalog, keys) ==>
      it.course in catalog && Key(it.course) in keys && it.dayIndex < DayCount && MeetsOn(it.course, it.dayIndex)
  {
    ExpansionItemsSound(SelectedCourses(catalog, keys));
  }

  /** With nothing selected there are no items and no conflicts. */
  lemma EmptySelection(catalog: seq<Course>)
    ensures SelectedCourses(catalog, []) == []
    ensures AllWellFormed(SelectedCourses(catalog, [])) && PlannedItems(catalog, []) == []
    ensures AllBlocks(PlannedItems(catalog, [])) == []
  {
    NothingSelected(catalog);
    NoItemsNoBlocks();
  }

  /** After removing a course, no item of a course with its key is scheduled. */
  lemma RemovedCourseUnscheduled(catalog: seq<Course>, keys: seq<string>, course: Course)
    requires AllWellFormed(SelectedCourses(catalog, RemoveCourse(keys, course)))
    ensures forall it :: it in PlannedItems(catalog, RemoveCourse(keys, course)) ==> Key(it.course) != Key(course)
  {
    PlannedItemsSelected(catalog, RemoveCourse(keys, course));
  }
}
