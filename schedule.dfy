/**
 * The occurrence expander: every selected course becomes one schedule item
 * per weekday code it meets on, with the course's start and end parsed once.
 * Codes the weekday table does not know are skipped.
 */
module Schedule {
  import opened Wrappers
  import opened TimeLabel
  import opened Seqs

  /** A catalog entry (read-only). */
  datatype Course = Course(
    id: string,
    section: string,
    title: string,
    instructor: string,
    days: seq<string>,
    start: string,
    end: string,
    category: string)

  /** One weekly meeting of a selected course on one weekday. */
  datatype ScheduleItem = ScheduleItem(course: Course, dayIndex: nat, startMinutes: int, endMinutes: int)

  /** The number of weekdays: `dayNames.length`. */
  const DayCount: nat := 7

  /** The short weekday codes, Sunday first: the keys of `dayIndexByShortName`. */
  const DayCodes: seq<string> := ["Sun", "Mon", "Tue", "Wed", "Thu", "Fri", "Sat"]

  /** `dayIndexByShortName[day]`, `None` for a code the table lacks. */
  function DayIndexByShortName(day: string): (r: Option<nat>)
    ensures r.Some? ==> r.value < DayCount
  {
    if day == "Sun" then Some(0)
    else if day == "Mon" then Some(1)
    else if day == "Tue" then Some(2)
    else if day == "Wed" then Some(3)
    else if day == "Thu" then Some(4)
    else if day == "Fri" then Some(5)
    else if day == "Sat" then Some(6)
    else None
  }

  /** The table knows exactly the seven codes, and maps each to its position. */
  lemma DayIndexTable(day: string)
    ensures DayIndexByShortName(day).Some? <==> day in DayCodes
    ensures DayIndexByShortName(day).Some? ==> DayCodes[DayIndexByShortName(day).value] == day
  {
  }

  /** The table and the list of codes are inverse to each other. */
  lemma DayIndexOfCode(i: nat)
    requires i < DayCount
    ensures DayIndexByShortName(DayCodes[i]) == Some(i)
  {
  }

  /** A code the weekday table recognises. */
  predicate IsDayCode(day: string) { DayIndexByShortName(day).Some? }

  /** A course whose start and end labels `toMinutes` can read. */
  predicate WellFormedCourse(c: Course)
  {
    WellFormed(c.start) && WellFormed(c.end)
  }

  predicate AllWellFormed(courses: seq<Course>)
  {
    forall i :: 0 <= i < |courses| ==> WellFormedCourse(courses[i])
  }

  /** What one weekday code contributes: one item, or nothing for an unknown code. */
  function DayItem(course: Course, startMinutes: int, endMinutes: int, day: string): seq<ScheduleItem>
  {
    match DayIndexByShortName(day)
    case None => []
    case Some(dayIndex) => [ScheduleItem(course, dayIndex, startMinutes, endMinutes)]
  }

  /** The items the inner `forEach` over `days` pushes for one course. */
  function DayItems(course: Course, startMinutes: int, endMinutes: int, days: seq<string>): seq<ScheduleItem>
  {
    if days == [] then []
    else
      DayItems(course, startMinutes, endMinutes, days[..|days| - 1])
        + DayItem(course, startMinutes, endMinutes, days[|days| - 1])
  }

  /** The items of one course. */
  function CourseItems(course: Course): seq<ScheduleItem>
    requires WellFormedCourse(course)
  {
    DayItems(course, ToMinutes(course.start), ToMinutes(course.end), course.days)
  }

  /** `scheduleItems`: the items of the selected courses, course after course. */
  function Expansion(selected: seq<Course>): seq<ScheduleItem>
    requires AllWellFormed(selected)
  {
    if selected == [] then []
    else Expansion(selected[..|selected| - 1]) + CourseItems(selected[|selected| - 1])
  }

  /** The `scheduleItems` block: a loop over the selected courses that pushes into `items`. */
  method ExpandItems(selected: seq<Course>) returns (items: seq<ScheduleItem>)
    requires AllWellFormed(selected)
    ensures items == Expansion(selected)
  {
    items := [];
    for ci := 0 to |selected|
      invariant items == Expansion(selected[..ci])
    {
      var course := selected[ci];
      var startMinutes := ToMinutes(course.start);
      var endMinutes := ToMinutes(course.end);
      items := PushDayItems(items, course, startMinutes, endMinutes);
      assert selected[..ci + 1][..ci] == selected[..ci];
    }
    assert selected[..|selected|] == selected;
  }

  /** The inner `course.days.forEach`: one push per recognised code. */
  method PushDayItems(items: seq<ScheduleItem>, course: Course, startMinutes: int, endMinutes: int)
    returns (pushed: seq<ScheduleItem>)
    ensures pushed == items + DayItems(course, startMinutes, endMinutes, course.days)
  {
    pushed := items;
    for di := 0 to |course.days|
      invariant pushed == items + DayItems(course, startMinutes, endMinutes, course.days[..di])
    {
      ghost var done := course.days[..di];
      assert course.days[..di + 1] == done + [course.days[di]];
      var dayIndex := DayIndexByShortName(course.days[di]);
      if dayIndex.None? {
        continue;
      }
      pushed := pushed + [ScheduleItem(course, dayIndex.value, startMinutes, endMinutes)];
    }
    assert course.days[..|course.days|] == course.days;
  }

  /** The recognised codes of a day list, in order. */
  function KnownDays(days: seq<string>): seq<string>
  {
    Filter(days, IsDayCode)
  }

  /**
   * One course yields exactly one item per recognised code, in the order of
   * the codes, each carrying that code's table index and the course's times.
   */
  lemma {:induction false} DayItemsExactly(course: Course, s: int, e: int, days: seq<string>)
    ensures |DayItems(course, s, e, days)| == |KnownDays(days)|
    ensures forall i :: 0 <= i < |KnownDays(days)| ==>
      IsDayCode(KnownDays(days)[i]) &&
      DayItems(course, s, e, days)[i]
        == ScheduleItem(course, DayIndexByShortName(KnownDays(days)[i]).value, s, e)
  {
    if days != [] {
      var init, last := days[..|days| - 1], days[|days| - 1];
      assert days == init + [last];
      DayItemsExactly(course, s, e, init);
      FilterConcat(init, [last], IsDayCode);
      assert Filter([last], IsDayCode) == if IsDayCode(last) then [last] else [] by {
        assert [last][1..] == [];
      }
    }
  }

  /** Course order: expanding two selections one after the other. */
  lemma {:induction false} ExpansionConcat(a: seq<Course>, b: seq<Course>)
    requires AllWellFormed(a) && AllWellFormed(b)
    ensures AllWellFormed(a + b)
    ensures Expansion(a + b) == Expansion(a) + Expansion(b)
  {
    assert AllWellFormed(a + b) by {
      forall i | 0 <= i < |a + b| ensures WellFormedCourse((a + b)[i]) {
        if i >= |a| { assert (a + b)[i] == b[i - |a|]; }
      }
    }
    if b == [] {
      assert a + b == a;
    } else {
      var init, last := b[..|b| - 1], b[|b| - 1];
      assert a + b == (a + init) + [last];
      assert (a + b)[..|a + b| - 1] == a + init;
      ExpansionConcat(a, init);
    }
  }

  /** The number of recognised codes across a selection. */
  function KnownDayCount(selected: seq<Course>): nat
  {
    if selected == [] then 0
    else KnownDayCount(selected[..|selected| - 1]) + |KnownDays(selected[|selected| - 1].days)|
  }

  /** The item count is the number of recognised day codes over all selected courses. */
  lemma {:induction false} ExpansionLength(selected: seq<Course>)
    requires AllWellFormed(selected)
    ensures |Expansion(selected)| == KnownDayCount(selected)
  {
    if selected != [] {
      var last := selected[|selected| - 1];
      ExpansionLength(selected[..|selected| - 1]);
      DayItemsExactly(last, ToMinutes(last.start), ToMinutes(last.end), last.days);
    }
  }

  /**
   * Every item belongs to a selected course, meets on a day that course lists,
   * carries that day's table index, and carries the course's parsed times.
   */
  lemma {:induction false} ExpansionItemsSound(selected: seq<Course>)
    requires AllWellFormed(selected)
    ensures forall it :: it in Expansion(selected) ==>
      it.course in selected && it.dayIndex < DayCount && MeetsOn(it.course, it.dayIndex)
      && it.startMinutes == ToMinutes(it.course.start) && it.endMinutes == ToMinutes(it.course.end)
  {
    if selected != [] {
      var init, last := selected[..|selected| - 1], selected[|selected| - 1];
      assert selected == init + [last];
      assert forall c :: c in init ==> c in selected;
      ExpansionItemsSound(init);
      DayItemsExactly(last, ToMinutes(last.start), ToMinutes(last.end), last.days);
      forall it | it in CourseItems(last)
        ensures it.course == last && it.dayIndex < DayCount && MeetsOn(last, it.dayIndex)
        ensures it.startMinutes == ToMinutes(last.start) && it.endMinutes == ToMinutes(last.end)
      {
        var i :| 0 <= i < |CourseItems(last)| && CourseItems(last)[i] == it;
        var code := KnownDays(last.days)[i];
        assert code in KnownDays(last.days);
        var j :| 0 <= j < |last.days| && last.days[j] == code;
      }
    }
  }

  /** Every recognised code of every selected course yields its item. */
  lemma {:induction false} ExpansionItemsComplete(selected: seq<Course>, ci: nat, day: string)
    requires AllWellFormed(selected)
    requires ci < |selected| && day in selected[ci].days && IsDayCode(day)
    ensures var c := selected[ci];
      ScheduleItem(c, DayIndexByShortName(day).value, ToMinutes(c.start), ToMinutes(c.end))
        in Expansion(selected)
  {
    var init, last := selected[..|selected| - 1], selected[|selected| - 1];
    if ci < |selected| - 1 {
      assert init[ci] == selected[ci];
      ExpansionItemsComplete(init, ci, day);
    } else {
      var s, e := ToMinutes(last.start), ToMinutes(last.end);
      DayItemsExactly(last, s, e, last.days);
      assert day in KnownDays(last.days);
      var i :| 0 <= i < |KnownDays(last.days)| && KnownDays(last.days)[i] == day;
      assert CourseItems(last)[i] == ScheduleItem(last, DayIndexByShortName(day).value, s, e);
    }
  }

  /** One of the course's day codes names weekday `dayIndex`. */
  predicate MeetsOn(course: Course, dayIndex: nat)
  {
    exists j :: 0 <= j < |course.days| && DayIndexByShortName(course.days[j]) == Some(dayIndex)
  }

  /** A course with no recognised code contributes nothing. */
  lemma UnknownCodesSkipped(course: Course, s: int, e: int)
    requires forall i :: 0 <= i < |course.days| ==> !IsDayCode(course.days[i])
    ensures DayItems(course, s, e, course.days) == []
  {
    DayItemsExactly(course, s, e, course.days);
    FilterNone(course.days, IsDayCode);
  }
}
