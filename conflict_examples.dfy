/** Worked instances of the conflict sweep, and the tie-break at a hand-off. */
module ConflictExamples {
  import opened Seqs
  import opened Schedule
  import opened SweepEvents
  import opened Conflicts
  import opened ConflictProperties

  const Sample := Course("CS101", "1", "Intro", "Staff", ["Mon"], "8:00 AM", "10:00 AM", "Core")

  function Monday(startMinutes: int, endMinutes: int): ScheduleItem
  {
    ScheduleItem(Sample, 1, startMinutes, endMinutes)
  }

  /** The events of the three-item example, in item order and sorted. */
  const TripleRaw := [Event(480, 1), Event(600, -1), Event(540, 1), Event(660, -1), Event(620, 1), Event(700, -1)]
  const TripleSorted := [Event(480, 1), Event(540, 1), Event(600, -1), Event(620, 1), Event(660, -1), Event(700, -1)]

  lemma TripleSortedIsSorted()
    ensures SortedEvents(TripleSorted)
  {
  }

  lemma TripleSamePermutation()
    ensures multiset(TripleRaw) == multiset(TripleSorted)
  {
  }

  /** Sorting the events of the three-item example. */
  lemma TripleEventsSorted()
    ensures SortEvents(TripleRaw) == TripleSorted
  {
    TripleSortedIsSorted();
    TripleSamePermutation();
    SortedUnique(SortEvents(TripleRaw), TripleSorted);
  }

  lemma SweepSnoc(day: nat, es: seq<Event>, e: Event)
    ensures Sweep(day, es + [e]) == Step(Sweep(day, es), day, e)
  {
    assert (es + [e])[..|es|] == es;
  }

  lemma SweepPrefix(day: nat, es: seq<Event>, k: nat)
    requires k < |es|
    ensures Sweep(day, es[..k + 1]) == Step(Sweep(day, es[..k]), day, es[k])
  {
    assert es[..k + 1] == es[..k] + [es[k]];
    SweepSnoc(day, es[..k], es[k]);
  }

  lemma TripleSweep()
    ensures Sweep(1, TripleSorted).blocks == [ConflictBlock(1, 540, 600), ConflictBlock(1, 620, 660)]
  {
    var es := TripleSorted;
    assert es[..0] == [];
    SweepPrefix(1, es, 0);
    SweepPrefix(1, es, 1);
    SweepPrefix(1, es, 2);
    SweepPrefix(1, es, 3);
    SweepPrefix(1, es, 4);
    SweepPrefix(1, es, 5);
    assert es[..6] == es;
  }

  lemma TripleMonday()
    ensures DayBlocks(TripleItems, 1) == [ConflictBlock(1, 540, 600), ConflictBlock(1, 620, 660)]
  {
    var items := TripleItems;
    FilterAll(items, OnDay(1));
    var raw := TripleRaw;
    assert Events(items[2..]) == raw[4..];
    assert Events(items[1..]) == raw[2..];
    assert Events(items) == raw;
    TripleEventsSorted();
    TripleSweep();
  }

  /** The three-item example has no items on weekdays other than Monday. */
  const TripleItems := [Monday(480, 600), Monday(540, 660), Monday(620, 700)]

  /**
   * Overlaps `[480,600)`, `[540,660)` and `[620,700)` on one weekday give the
   * two regions where two items are in progress.
   */
  lemma TripleExample()
    ensures AllBlocks(TripleItems) == [ConflictBlock(1, 540, 600), ConflictBlock(1, 620, 660)]
  {
    SingleDayBlocks(TripleItems, 1);
    TripleMonday();
  }

  /**
   * A hand-off: the first item ends at 600 exactly when the third starts,
   * while the second runs on to 660.
   */
  const HandOffItems := [Monday(480, 600), Monday(540, 660), Monday(600, 700)]
  const HandOffRaw := [Event(480, 1), Event(600, -1), Event(540, 1), Event(660, -1), Event(600, 1), Event(700, -1)]
  const HandOffSorted := [Event(480, 1), Event(540, 1), Event(600, -1), Event(600, 1), Event(660, -1), Event(700, -1)]

  lemma HandOffSortedIsSorted()
    ensures SortedEvents(HandOffSorted)
  {
  }

  lemma HandOffSamePermutation()
    ensures multiset(HandOffRaw) == multiset(HandOffSorted)
  {
  }

  lemma HandOffEventsSorted()
    ensures SortEvents(HandOffRaw) == HandOffSorted
  {
    HandOffSortedIsSorted();
    HandOffSamePermutation();
    SortedUnique(SortEvents(HandOffRaw), HandOffSorted);
  }

  lemma HandOffSweep()
    ensures Sweep(1, HandOffSorted).blocks == [ConflictBlock(1, 540, 600), ConflictBlock(1, 600, 660)]
  {
    var es := HandOffSorted;
    assert es[..0] == [];
    SweepPrefix(1, es, 0);
    SweepPrefix(1, es, 1);
    SweepPrefix(1, es, 2);
    SweepPrefix(1, es, 3);
    SweepPrefix(1, es, 4);
    SweepPrefix(1, es, 5);
    assert es[..6] == es;
  }

  lemma HandOffMonday()
    ensures DayBlocks(HandOffItems, 1) == [ConflictBlock(1, 540, 600), ConflictBlock(1, 600, 660)]
  {
    var items := HandOffItems;
    FilterAll(items, OnDay(1));
    var raw := HandOffRaw;
    assert Events(items[2..]) == raw[4..];
    assert Events(items[1..]) == raw[2..];
    assert Events(items) == raw;
    HandOffEventsSorted();
    HandOffSweep();
  }

  /** Two of the hand-off items are in progress at every minute of `[540,660)`. */
  lemma HandOffBusy(x: int)
    requires 540 <= x < 660
    ensures ActiveAt(HandOffItems, x) >= 2
  {
    var items := HandOffItems;
    var rest := [Monday(540, 660), Monday(600, 700)];
    var last := [Monday(600, 700)];
    assert items[1..] == rest && rest[1..] == last && last[1..] == [];
    assert ActiveAt(last, x) == if 600 <= x then 1 else 0;
    assert ActiveAt(rest, x) == 1 + ActiveAt(last, x);
    assert ActiveAt(items, x) == (if x < 600 then 1 else 0) + ActiveAt(rest, x);
  }

  /**
   * At a hand-off the end is processed before the start, so the count dips
   * to one and the region `[540,660)`, where two items are in progress
   * throughout, comes out as two touching blocks rather than one.
   */
  lemma HandOffSplits()
    ensures AllBlocks(HandOffItems) == [ConflictBlock(1, 540, 600), ConflictBlock(1, 600, 660)]
  {
    SingleDayBlocks(HandOffItems, 1);
    HandOffMonday();
  }
}
