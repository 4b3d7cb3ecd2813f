/**
 * The sweep-line conflict detector (`conflictBlocks`). Items are bucketed by
 * weekday; for every day with at least two items the day's events are
 * sorted and swept with a running `activeCount`; a region opens when the
 * count rises to 2 and is emitted as a block `[conflictStart, t)` when the
 * count falls below 2 again.
 */
module Conflicts {
  import opened Wrappers
  import opened Seqs
  import opened Schedule
  import opened SweepEvents

  datatype ConflictBlock = ConflictBlock(dayIndex: nat, startMinutes: int, endMinutes: int)

  /** The sweep's mutable state: `activeCount`, `conflictStart` (`None` is `null`) and the blocks so far. */
  datatype SweepState = SweepState(activeCount: int, conflictStart: Option<int>, blocks: seq<ConflictBlock>)

  const InitialState := SweepState(0, None, [])

  /** One turn of `events.forEach` for weekday `day`. */
  function Step(st: SweepState, day: nat, event: Event): SweepState
  {
    var nextCount := st.activeCount + event.delta;
    if st.activeCount < 2 && nextCount >= 2 then
      SweepState(nextCount, Some(event.time), st.blocks)
    else if st.activeCount >= 2 && nextCount < 2 && st.conflictStart.Some? then
      var blocks :=
        if event.time > st.conflictStart.value
        then st.blocks + [ConflictBlock(day, st.conflictStart.value, event.time)]
        else st.blocks;
      SweepState(nextCount, None, blocks)
    else
      SweepState(nextCount, st.conflictStart, st.blocks)
  }

  /** The state after sweeping `events` in order. */
  function Sweep(day: nat, events: seq<Event>): SweepState
  {
    if events == [] then InitialState
    else Step(Sweep(day, events[..|events| - 1]), day, events[|events| - 1])
  }

  function OnDay(day: nat): ScheduleItem -> bool
  {
    (item: ScheduleItem) => item.dayIndex == day
  }

  /** `itemsByDay[day]`: the items on weekday `day`, in item order. */
  function Bucket(items: seq<ScheduleItem>, day: nat): seq<ScheduleItem>
  {
    Filter(items, OnDay(day))
  }

  /** The blocks of one weekday: nothing for fewer than two items, else the sweep of its sorted events. */
  function DayBlocks(items: seq<ScheduleItem>, day: nat): seq<ConflictBlock>
  {
    var bucket := Bucket(items, day);
    if |bucket| < 2 then [] else Sweep(day, SortEvents(Events(bucket))).blocks
  }

  /** The blocks of weekdays `0 .. n-1`, day after day. */
  function BlocksUpTo(items: seq<ScheduleItem>, n: nat): seq<ConflictBlock>
  {
    if n == 0 then [] else BlocksUpTo(items, n - 1) + DayBlocks(items, n - 1)
  }

  /** `conflictBlocks`. */
  function AllBlocks(items: seq<ScheduleItem>): seq<ConflictBlock>
  {
    BlocksUpTo(items, DayCount)
  }

  /** The `conflictBlocks` block, with its buckets and its sweep. */
  method ComputeConflictBlocks(items: seq<ScheduleItem>) returns (blocks: seq<ConflictBlock>)
    requires forall i :: 0 <= i < |items| ==> items[i].dayIndex < DayCount
    ensures blocks == AllBlocks(items)
  {
    var itemsByDay := new seq<ScheduleItem>[DayCount](_ => []);
    for k := 0 to |items|
      invariant forall d :: 0 <= d < DayCount ==> itemsByDay[d] == Bucket(items[..k], d)
    {
      var item := items[k];
      forall d | 0 <= d < DayCount {
        FilterConcat(items[..k], [item], OnDay(d));
      }
      assert items[..k + 1] == items[..k] + [item];
      itemsByDay[item.dayIndex] := itemsByDay[item.dayIndex] + [item];
    }
    assert items[..|items|] == items;

    blocks := [];
    for day := 0 to DayCount
      invariant forall d :: 0 <= d < DayCount ==> itemsByDay[d] == Bucket(items, d)
      invariant blocks == BlocksUpTo(items, day)
    {
      var dayItems := itemsByDay[day];
      if |dayItems| < 2 {
        continue;
      }
      var events := SortEvents(Events(dayItems));
      blocks := SweepDay(blocks, day, events);
    }
  }

  /** `events.forEach` for one weekday: the running count, the open region, and `blocks.push`. */
  method SweepDay(blocks: seq<ConflictBlock>, day: nat, events: seq<Event>) returns (pushed: seq<ConflictBlock>)
    ensures pushed == blocks + Sweep(day, events).blocks
  {
    pushed := blocks;
    var activeCount := 0;
    var conflictStart: Option<int> := None;
    for k := 0 to |events|
      invariant activeCount == Sweep(day, events[..k]).activeCount
      invariant conflictStart == Sweep(day, events[..k]).conflictStart
      invariant pushed == blocks + Sweep(day, events[..k]).blocks
    {
      var event := events[k];
      assert events[..k + 1][..k] == events[..k];
      var nextCount := activeCount + event.delta;
      if activeCount < 2 && nextCount >= 2 {
        conflictStart := Some(event.time);
      } else if activeCount >= 2 && nextCount < 2 && conflictStart.Some? {
        if event.time > conflictStart.value {
          pushed := pushed + [ConflictBlock(day, conflictStart.value, event.time)];
        }
        conflictStart := None;
      }
      activeCount := nextCount;
    }
    assert events[..|events|] == events;
  }
}
