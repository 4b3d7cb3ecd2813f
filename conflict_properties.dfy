/**
 * What the sweep computes: the blocks of a weekday cover exactly the minutes
 * at which at least two of that day's items are in progress; every block has
 * positive length; the blocks come out by weekday and, within a weekday,
 * sorted and pairwise disjoint.
 */
module ConflictProperties {
  import opened Seqs
  import opened Schedule
  import opened SweepEvents
  import opened Conflicts

  /** Block `b` lies on weekday `day` and contains minute `x`. */
  predicate Covers(b: ConflictBlock, day: nat, x: int)
  {
    b.dayIndex == day && b.startMinutes <= x < b.endMinutes
  }

  /** Some block of `bs` contains minute `x` of weekday `day`. */
  predicate Covered(bs: seq<ConflictBlock>, day: nat, x: int)
  {
    exists i :: 0 <= i < |bs| && Covers(bs[i], day, x)
  }

  predicate BlocksOnDay(bs: seq<ConflictBlock>, day: nat)
  {
    forall i :: 0 <= i < |bs| ==> bs[i].dayIndex == day && bs[i].startMinutes < bs[i].endMinutes
  }

  predicate BlocksOrdered(bs: seq<ConflictBlock>)
  {
    forall i, j :: 0 <= i < j < |bs| ==> bs[i].endMinutes <= bs[j].startMinutes
  }

  predicate BlocksEndBy(bs: seq<ConflictBlock>, t: int)
  {
    forall i :: 0 <= i < |bs| ==> bs[i].endMinutes <= t
  }

  predicate TimeSorted(es: seq<Event>)
  {
    forall i, j :: 0 <= i < j < |es| ==> es[i].time <= es[j].time
  }

  lemma CoveredSnoc(bs: seq<ConflictBlock>, b: ConflictBlock, day: nat, x: int)
    ensures Covered(bs + [b], day, x) <==> Covered(bs, day, x) || Covers(b, day, x)
  {
    var r := bs + [b];
    if Covered(bs, day, x) {
      var i :| 0 <= i < |bs| && Covers(bs[i], day, x);
      assert r[i] == bs[i];
    }
    if Covers(b, day, x) {
      assert r[|bs|] == b;
    }
    if Covered(r, day, x) {
      var i :| 0 <= i < |r| && Covers(r[i], day, x);
      if i < |bs| { assert r[i] == bs[i]; }
    }
  }

  lemma CoveredConcat(a: seq<ConflictBlock>, b: seq<ConflictBlock>, day: nat, x: int)
    ensures Covered(a + b, day, x) <==> Covered(a, day, x) || Covered(b, day, x)
  {
    var r := a + b;
    if Covered(a, day, x) {
      var i :| 0 <= i < |a| && Covers(a[i], day, x);
      assert r[i] == a[i];
    }
    if Covered(b, day, x) {
      var i :| 0 <= i < |b| && Covers(b[i], day, x);
      assert r[|a| + i] == b[i];
    }
    if Covered(r, day, x) {
      var i :| 0 <= i < |r| && Covers(r[i], day, x);
      if i < |a| { assert r[i] == a[i]; } else { assert r[i] == b[i - |a|]; }
    }
  }

  function LastTime(es: seq<Event>): int
    requires es != []
  {
    es[|es| - 1].time
  }

  predicate OpenBy(st: SweepState, x: int)
  {
    st.conflictStart.Some? && st.conflictStart.value <= x
  }

  /** Every block of the state ends by the open region's start, or by the last event if no region is open. */
  predicate BlocksBounded(st: SweepState, es: seq<Event>)
    requires es != []
  {
    BlocksEndBy(st.blocks, if st.conflictStart.Some? then st.conflictStart.value else LastTime(es))
  }

  /** Before the last event's time, a minute lies in a block or in the open region iff two or more items are in progress. */
  ghost predicate CoverageSoFar(day: nat, es: seq<Event>, st: SweepState)
    requires es != []
  {
    forall x :: x < LastTime(es) ==>
      ((Covered(st.blocks, day, x) || OpenBy(st, x)) <==> NetAt(es, x) >= 2)
  }

  /** The invariant of the sweep after it has processed the events `es`. */
  ghost predicate SweepInv(day: nat, es: seq<Event>, st: SweepState)
  {
    && st.activeCount == Total(es)
    && (st.conflictStart.Some? <==> st.activeCount >= 2)
    && BlocksOnDay(st.blocks, day)
    && BlocksOrdered(st.blocks)
    && (es == [] ==> st.blocks == [])
    && (es != [] ==> BlocksBounded(st, es))
    && (es != [] && st.conflictStart.Some? ==> st.conflictStart.value <= LastTime(es))
    && (es != [] ==> CoverageSoFar(day, es, st))
  }

  /** The counting part of the invariant survives one step. */
  lemma StepCounts(day: nat, es: seq<Event>, e: Event, st: SweepState)
    requires SweepInv(day, es, st)
    requires es != [] ==> LastTime(es) <= e.time
    ensures var st' := Step(st, day, e);
      st'.activeCount == Total(es + [e])
      && (st'.conflictStart.Some? <==> st'.activeCount >= 2)
      && (st'.conflictStart.Some? ==> st'.conflictStart.value <= e.time)
  {
    NetAtSnoc(es, e, 0);
  }

  /** The shape of the blocks survives one step. */
  lemma StepBlocks(day: nat, es: seq<Event>, e: Event, st: SweepState)
    requires SweepInv(day, es, st)
    requires es != [] ==> LastTime(es) <= e.time
    ensures var st' := Step(st, day, e);
      BlocksOnDay(st'.blocks, day) && BlocksOrdered(st'.blocks)
      && BlocksBounded(st', es + [e])
  {
    var st' := Step(st, day, e);
    assert LastTime(es + [e]) == e.time;
    if st'.blocks != st.blocks {
      var b := ConflictBlock(day, st.conflictStart.value, e.time);
      assert st'.blocks == st.blocks + [b];
      assert BlocksEndBy(st.blocks, b.startMinutes);
    }
  }

  /** The coverage part of the invariant survives one step. */
  lemma StepCoverage(day: nat, es: seq<Event>, e: Event, st: SweepState)
    requires SweepInv(day, es, st)
    requires TimeSorted(es + [e])
    ensures CoverageSoFar(day, es + [e], Step(st, day, e))
  {
    var st' := Step(st, day, e);
    var es' := es + [e];
    assert LastTime(es') == e.time;
    forall x | x < e.time
      ensures (Covered(st'.blocks, day, x) || OpenBy(st', x)) <==> NetAt(es', x) >= 2
    {
      NetAtSnoc(es, e, x);
      assert NetAt(es', x) == NetAt(es, x);
      if st'.blocks != st.blocks {
        CoveredSnoc(st.blocks, ConflictBlock(day, st.conflictStart.value, e.time), day, x);
      }
      if es == [] {
        assert !Covered(st.blocks, day, x);
      } else if x < LastTime(es) {
        assert (Covered(st.blocks, day, x) || OpenBy(st, x)) <==> NetAt(es, x) >= 2;
      } else {
        forall i | 0 <= i < |es| ensures es[i].time <= x {
          assert es'[i] == es[i] && es'[|es| - 1] == es[|es| - 1];
        }
        NetAtAfterAll(es, x);
        assert !Covered(st.blocks, day, x);
      }
    }
  }

  lemma StepInv(day: nat, es: seq<Event>, e: Event, st: SweepState)
    requires SweepInv(day, es, st)
    requires TimeSorted(es + [e])
    ensures SweepInv(day, es + [e], Step(st, day, e))
  {
    var es' := es + [e];
    if es != [] {
      assert es'[|es| - 1] == es[|es| - 1] && es'[|es|] == e;
    }
    StepCounts(day, es, e, st);
    StepBlocks(day, es, e, st);
    StepCoverage(day, es, e, st);
  }

  /** The sweep keeps its invariant over any list of events sorted by time. */
  lemma {:induction false} SweepKeepsInv(day: nat, es: seq<Event>)
    requires TimeSorted(es)
    ensures SweepInv(day, es, Sweep(day, es))
  {
    if es != [] {
      var init, last := es[..|es| - 1], es[|es| - 1];
      assert es == init + [last];
      assert TimeSorted(init);
      SweepKeepsInv(day, init);
      StepInv(day, init, last, Sweep(day, init));
    }
  }

  /**
   * Over balanced events sorted by time, the blocks of the sweep are exactly
   * the minutes where the count of events at or before them is at least two.
   */
  lemma SweepCoverage(day: nat, es: seq<Event>, x: int)
    requires TimeSorted(es) && Total(es) == 0
    ensures Covered(Sweep(day, es).blocks, day, x) <==> NetAt(es, x) >= 2
    ensures BlocksOnDay(Sweep(day, es).blocks, day) && BlocksOrdered(Sweep(day, es).blocks)
  {
    var st := Sweep(day, es);
    SweepKeepsInv(day, es);
    if es != [] && x >= LastTime(es) {
      forall i | 0 <= i < |es| ensures es[i].time <= x {
      }
      NetAtAfterAll(es, x);
      assert !Covered(st.blocks, day, x);
    }
  }

  lemma SortedIsTimeSorted(es: seq<Event>)
    requires SortedEvents(es)
    ensures TimeSorted(es)
  {
  }

  /** The blocks of a bucket lie on its weekday, have positive length and are sorted and disjoint. */
  lemma DayBlocksShape(items: seq<ScheduleItem>, day: nat)
    ensures BlocksOnDay(DayBlocks(items, day), day) && BlocksOrdered(DayBlocks(items, day))
    ensures DayBlocks(items, day) != [] ==> |Bucket(items, day)| >= 2
  {
    var bucket := Bucket(items, day);
    if |bucket| >= 2 {
      var es := SortEvents(Events(bucket));
      SortedIsTimeSorted(es);
      SweepKeepsInv(day, es);
    }
  }

  /** The events of a bucket, swept in sorted order, cover exactly where the count reaches two. */
  lemma DayBlocksCoverage(items: seq<ScheduleItem>, day: nat, x: int)
    ensures Covered(DayBlocks(items, day), day, x)
      <==> StartedBy(Bucket(items, day), x) - EndedBy(Bucket(items, day), x) >= 2
  {
    var bucket := Bucket(items, day);
    if |bucket| < 2 {
      FewItemsNet(bucket, x);
    } else {
      var es := SortEvents(Events(bucket));
      SortedIsTimeSorted(es);
      SortNetAt(Events(bucket), x);
      EventsNetAt(bucket, x);
      SweepCoverage(day, es, x);
    }
  }

  /** Every block lies on a weekday below `n` and has positive length. */
  predicate DaysBelow(bs: seq<ConflictBlock>, n: nat)
  {
    forall i :: 0 <= i < |bs| ==> bs[i].dayIndex < n && bs[i].startMinutes < bs[i].endMinutes
  }

  /** Every block lies on a weekday with at least two items. */
  predicate BusyDays(items: seq<ScheduleItem>, bs: seq<ConflictBlock>)
  {
    forall i :: 0 <= i < |bs| ==> |Bucket(items, bs[i].dayIndex)| >= 2
  }

  /** Blocks come by weekday and, within a weekday, sorted and pairwise disjoint. */
  predicate Chronological(bs: seq<ConflictBlock>)
  {
    forall i, j :: 0 <= i < j < |bs| ==>
      bs[i].dayIndex < bs[j].dayIndex
      || (bs[i].dayIndex == bs[j].dayIndex && bs[i].endMinutes <= bs[j].startMinutes)
  }

  /** Appending the blocks of weekday `n` to those of the weekdays below it keeps the order. */
  lemma AppendDay(items: seq<ScheduleItem>, a: seq<ConflictBlock>, b: seq<ConflictBlock>, n: nat)
    requires DaysBelow(a, n) && BusyDays(items, a) && Chronological(a)
    requires BlocksOnDay(b, n) && BlocksOrdered(b) && (b != [] ==> |Bucket(items, n)| >= 2)
    ensures DaysBelow(a + b, n + 1) && BusyDays(items, a + b) && Chronological(a + b)
  {
    var bs := a + b;
    forall i | 0 <= i < |bs|
      ensures bs[i].dayIndex < n + 1 && bs[i].startMinutes < bs[i].endMinutes
      ensures |Bucket(items, bs[i].dayIndex)| >= 2
    {
      if i >= |a| { assert bs[i] == b[i - |a|]; }
    }
    forall i, j | 0 <= i < j < |bs|
      ensures bs[i].dayIndex < bs[j].dayIndex
        || (bs[i].dayIndex == bs[j].dayIndex && bs[i].endMinutes <= bs[j].startMinutes)
    {
      if j < |a| {
      } else if i < |a| {
        assert bs[j] == b[j - |a|];
      } else {
        assert bs[i] == b[i - |a|] && bs[j] == b[j - |a|];
      }
    }
  }

  lemma {:induction false} BlocksUpToShape(items: seq<ScheduleItem>, n: nat)
    ensures DaysBelow(BlocksUpTo(items, n), n)
    ensures BusyDays(items, BlocksUpTo(items, n))
    ensures Chronological(BlocksUpTo(items, n))
  {
    if n > 0 {
      BlocksUpToShape(items, n - 1);
      DayBlocksShape(items, n - 1);
      AppendDay(items, BlocksUpTo(items, n - 1), DayBlocks(items, n - 1), n - 1);
    }
  }

  /** No block on weekday `other` covers a minute of a different weekday. */
  lemma OtherDayNotCovered(bs: seq<ConflictBlock>, other: nat, day: nat, x: int)
    requires BlocksOnDay(bs, other) && other != day
    ensures !Covered(bs, day, x)
  {
  }

  lemma {:induction false} BlocksUpToCoverage(items: seq<ScheduleItem>, n: nat, day: nat, x: int)
    ensures Covered(BlocksUpTo(items, n), day, x) <==> day < n && Covered(DayBlocks(items, day), day, x)
  {
    if n > 0 {
      BlocksUpToCoverage(items, n - 1, day, x);
      CoveredConcat(BlocksUpTo(items, n - 1), DayBlocks(items, n - 1), day, x);
      if day != n - 1 {
        DayBlocksShape(items, n - 1);
        OtherDayNotCovered(DayBlocks(items, n - 1), n - 1, day, x);
      }
    }
  }

  /**
   * Coverage: a minute of weekday `day` lies in a conflict block iff the
   * number of that day's items started by then, less the number ended by
   * then, is at least two.
   */
  lemma ConflictCoverage(items: seq<ScheduleItem>, day: nat, x: int)
    requires day < DayCount
    ensures Covered(AllBlocks(items), day, x)
      <==> StartedBy(Bucket(items, day), x) - EndedBy(Bucket(items, day), x) >= 2
  {
    BlocksUpToCoverage(items, DayCount, day, x);
    DayBlocksCoverage(items, day, x);
  }

  /**
   * Coverage for items that do not end before they start: a minute of
   * weekday `day` lies in a conflict block iff at least two of that day's
   * items are in progress at it.
   */
  lemma ConflictCoverageActive(items: seq<ScheduleItem>, day: nat, x: int)
    requires day < DayCount
    requires forall i :: 0 <= i < |items| ==> items[i].startMinutes <= items[i].endMinutes
    ensures Covered(AllBlocks(items), day, x) <==> ActiveAt(Bucket(items, day), x) >= 2
  {
    var bucket := Bucket(items, day);
    forall i | 0 <= i < |bucket| ensures bucket[i].startMinutes <= bucket[i].endMinutes {
      assert bucket[i] in items;
    }
    NetIsActive(bucket, x);
    ConflictCoverage(items, day, x);
  }

  /**
   * Block shape: every block has positive length, lies on a weekday that has
   * at least two items, and the blocks come by weekday and, within one
   * weekday, sorted by start and pairwise disjoint.
   */
  lemma AllBlocksShape(items: seq<ScheduleItem>)
    ensures DaysBelow(AllBlocks(items), DayCount)
    ensures BusyDays(items, AllBlocks(items))
    ensures Chronological(AllBlocks(items))
  {
    BlocksUpToShape(items, DayCount);
  }

  /** When every item lies on weekday `day`, the blocks are that weekday's sweep alone. */
  lemma SingleDayBlocks(items: seq<ScheduleItem>, day: nat)
    requires day < DayCount
    requires forall i :: 0 <= i < |items| ==> items[i].dayIndex == day
    ensures AllBlocks(items) == DayBlocks(items, day)
    ensures Bucket(items, day) == items
  {
    FilterAll(items, OnDay(day));
    forall d: nat | d != day ensures |Bucket(items, d)| < 2 {
      FilterNone(items, OnDay(d));
    }
    SingleDayUpTo(items, day, DayCount);
  }

  lemma {:induction false} SingleDayUpTo(items: seq<ScheduleItem>, day: nat, n: nat)
    requires forall d: nat :: d != day ==> |Bucket(items, d)| < 2
    ensures day < n ==> BlocksUpTo(items, n) == DayBlocks(items, day)
    ensures day >= n ==> BlocksUpTo(items, n) == []
  {
    if n > 0 {
      SingleDayUpTo(items, day, n - 1);
      if n - 1 != day {
        QuietStep(items, n);
        if day < n {
          assert day < n - 1;
          assert BlocksUpTo(items, n - 1) == DayBlocks(items, day);
        } else {
          assert BlocksUpTo(items, n - 1) == [];
        }
      } else {
        FirstBusyStep(items, n);
      }
    }
  }

  /** A weekday with fewer than two items adds nothing to the blocks. */
  lemma QuietStep(items: seq<ScheduleItem>, n: nat)
    requires n > 0 && |Bucket(items, n - 1)| < 2
    ensures BlocksUpTo(items, n) == BlocksUpTo(items, n - 1)
  {
    assert DayBlocks(items, n - 1) == [];
    assert BlocksUpTo(items, n - 1) + [] == BlocksUpTo(items, n - 1);
  }

  lemma FirstBusyStep(items: seq<ScheduleItem>, n: nat)
    requires n > 0 && BlocksUpTo(items, n - 1) == []
    ensures BlocksUpTo(items, n) == DayBlocks(items, n - 1)
  {
    assert [] + DayBlocks(items, n - 1) == DayBlocks(items, n - 1);
  }

  /** When no weekday's count ever reaches two, there is no block at all. */
  lemma NeverTwoNoBlocks(items: seq<ScheduleItem>)
    requires forall day: nat, x: int :: day < DayCount ==>
      StartedBy(Bucket(items, day), x) - EndedBy(Bucket(items, day), x) < 2
    ensures AllBlocks(items) == []
  {
    var bs := AllBlocks(items);
    if bs != [] {
      AllBlocksShape(items);
      var b := bs[0];
      assert Covers(b, b.dayIndex, b.startMinutes);
      ConflictCoverage(items, b.dayIndex, b.startMinutes);
      assert false;
    }
  }

  /** Two items meeting back to back are never both in progress, in either order. */
  lemma BackToBackNet(a: ScheduleItem, b: ScheduleItem, x: int)
    requires a.endMinutes == b.startMinutes
    ensures StartedBy([a, b], x) - EndedBy([a, b], x) < 2
    ensures StartedBy([b, a], x) - EndedBy([b, a], x) < 2
  {
    assert [a, b][1..] == [b];
    assert [b, a][1..] == [a];
    assert [b][1..] == [] && [a][1..] == [];
    assert StartedBy([b], x) == if b.startMinutes <= x then 1 else 0;
    assert EndedBy([b], x) == if b.endMinutes <= x then 1 else 0;
    assert StartedBy([a], x) == if a.startMinutes <= x then 1 else 0;
    assert EndedBy([a], x) == if a.endMinutes <= x then 1 else 0;
  }

  /** The bucket of a weekday for two items on the same weekday. */
  lemma PairBucket(a: ScheduleItem, b: ScheduleItem, day: nat)
    requires a.dayIndex == b.dayIndex
    ensures Bucket([a, b], day) == if day == a.dayIndex then [a, b] else []
  {
    if day == a.dayIndex {
      FilterAll([a, b], OnDay(day));
    } else {
      FilterNone([a, b], OnDay(day));
    }
  }

  /**
   * Tie-break: two items on one weekday where one ends exactly when the
   * other starts give no conflict block, whichever of them comes first.
   */
  lemma BackToBackNoConflict(a: ScheduleItem, b: ScheduleItem)
    requires a.dayIndex == b.dayIndex
    requires a.endMinutes == b.startMinutes
    ensures AllBlocks([a, b]) == []
    ensures AllBlocks([b, a]) == []
  {
    forall day: nat, x: int | day < DayCount
      ensures StartedBy(Bucket([a, b], day), x) - EndedBy(Bucket([a, b], day), x) < 2
      ensures StartedBy(Bucket([b, a], day), x) - EndedBy(Bucket([b, a], day), x) < 2
    {
      PairBucket(a, b, day);
      PairBucket(b, a, day);
      BackToBackNet(a, b, x);
    }
    NeverTwoNoBlocks([a, b]);
    NeverTwoNoBlocks([b, a]);
  }

  /** No items, no blocks. */
  lemma NoItemsNoBlocks()
    ensures AllBlocks([]) == []
  {
    forall day: nat, x: int | day < DayCount
      ensures StartedBy(Bucket([], day), x) - EndedBy(Bucket([], day), x) < 2
    {
      FilterNone([], OnDay(day));
    }
    NeverTwoNoBlocks([]);
  }
}
