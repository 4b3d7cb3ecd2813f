/**
 * Sweep events and their ordering. Each schedule item contributes a +1 event
 * at its start and a -1 event at its end; the events of a day are sorted by
 * time, and at equal times by delta, so that ends come before starts.
 */
module SweepEvents {
  import opened Schedule

  /** `{ time, delta }`: `delta` is +1 at a start and -1 at an end. */
  datatype Event = Event(time: int, delta: int)

  /** The `flatMap` of a bucket: a start and an end event per item, in item order. */
  function Events(items: seq<ScheduleItem>): (es: seq<Event>)
    ensures |es| == 2 * |items|
  {
    if items == [] then []
    else [Event(items[0].startMinutes, 1), Event(items[0].endMinutes, -1)] + Events(items[1..])
  }

  /** Item `i` contributes its start event at position `2i` and its end event at `2i + 1`. */
  lemma {:induction false} EventsContents(items: seq<ScheduleItem>)
    ensures forall i :: 0 <= i < |items| ==>
      Events(items)[2 * i] == Event(items[i].startMinutes, 1) &&
      Events(items)[2 * i + 1] == Event(items[i].endMinutes, -1)
  {
    if items != [] {
      EventsContents(items[1..]);
    }
  }

  /**
   * The comparator `a.time - b.time || a.delta - b.delta` read as an order:
   * `a` may come before `b` when the comparator does not put it after `b`.
   */
  predicate EventBefore(a: Event, b: Event)
  {
    a.time < b.time || (a.time == b.time && a.delta <= b.delta)
  }

  /** The comparator's value: `a.time - b.time`, or `a.delta - b.delta` when that is 0 (falsy). */
  function Compare(a: Event, b: Event): int
  {
    if a.time - b.time != 0 then a.time - b.time else a.delta - b.delta
  }

  /**
   * `EventBefore` is the order the comparator sorts by: `a` may precede `b`
   * exactly when the comparator is not positive. It is total, and two events
   * that may each precede the other are equal, so it is a total order.
   */
  lemma EventBeforeIsComparator(a: Event, b: Event)
    ensures EventBefore(a, b) <==> Compare(a, b) <= 0
    ensures EventBefore(a, b) || EventBefore(b, a)
    ensures EventBefore(a, b) && EventBefore(b, a) ==> a == b
    ensures Compare(a, b) == -Compare(b, a)
  {
  }

  predicate SortedEvents(s: seq<Event>)
  {
    forall i, j :: 0 <= i < j < |s| ==> EventBefore(s[i], s[j])
  }

  /** Inserts `e` into a sorted list before the first element it may precede. */
  function Insert(e: Event, s: seq<Event>): (r: seq<Event>)
    ensures multiset(r) == multiset(s) + multiset{e}
    ensures SortedEvents(s) ==> SortedEvents(r)
  {
    if s == [] then [e]
    else if EventBefore(e, s[0]) then [e] + s
    else
      var r := [s[0]] + Insert(e, s[1..]);
      assert s == [s[0]] + s[1..];
      assert SortedEvents(s) ==> SortedEvents(r) by {
        if SortedEvents(s) {
          forall x | x in Insert(e, s[1..]) ensures EventBefore(s[0], x) {
            assert x in multiset(Insert(e, s[1..]));
          }
        }
      }
      r
  }

  /**
   * `events.sort(comparator)`. The comparator decides every pair of distinct
   * events, and events it calls equal are equal, so every correct sort
   * yields this same list: the sorted permutation.
   */
  function SortEvents(es: seq<Event>): (r: seq<Event>)
    ensures SortedEvents(r)
    ensures multiset(r) == multiset(es)
    ensures |r| == |es|
  {
    if es == [] then []
    else
      assert es == [es[0]] + es[1..];
      var r := Insert(es[0], SortEvents(es[1..]));
      assert |r| == |multiset(r)|;
      r
  }

  /** The sorted list is unique: two sorted permutations of one list are equal. */
  lemma {:induction false} SortedUnique(a: seq<Event>, b: seq<Event>)
    requires SortedEvents(a) && SortedEvents(b) && multiset(a) == multiset(b)
    ensures a == b
    decreases |a|
  {
    assert |a| == |multiset(a)| == |multiset(b)| == |b|;
    if a != [] {
      SortedHead(a, b[0]);
      SortedHead(b, a[0]);
      assert a[0] == b[0];
      TailMultiset(a);
      TailMultiset(b);
      SortedTail(a);
      SortedTail(b);
      SortedUnique(a[1..], b[1..]);
      assert a == [a[0]] + a[1..] && b == [b[0]] + b[1..];
    }
  }

  lemma SortedHead(s: seq<Event>, x: Event)
    requires SortedEvents(s) && x in multiset(s)
    ensures EventBefore(s[0], x)
  {
    var i :| 0 <= i < |s| && s[i] == x;
    assert i == 0 || EventBefore(s[0], s[i]);
  }

  lemma TailMultiset(s: seq<Event>)
    requires s != []
    ensures multiset(s[1..]) == multiset(s) - multiset{s[0]}
  {
    assert s == [s[0]] + s[1..];
  }

  lemma SortedTail(s: seq<Event>)
    requires SortedEvents(s) && s != []
    ensures SortedEvents(s[1..])
  {
    forall i, j | 0 <= i < j < |s| - 1 ensures EventBefore(s[1..][i], s[1..][j]) {
      assert s[1..][i] == s[i + 1] && s[1..][j] == s[j + 1];
    }
  }

  /** The sum of the deltas of the events at or before `x`: the count active just after `x`. */
  function NetAt(es: seq<Event>, x: int): int
  {
    if es == [] then 0
    else (if es[0].time <= x then es[0].delta else 0) + NetAt(es[1..], x)
  }

  /** The sum of all deltas. */
  function Total(es: seq<Event>): int
  {
    if es == [] then 0 else es[0].delta + Total(es[1..])
  }

  lemma {:induction false} NetAtSnoc(es: seq<Event>, e: Event, x: int)
    ensures NetAt(es + [e], x) == NetAt(es, x) + (if e.time <= x then e.delta else 0)
    ensures Total(es + [e]) == Total(es) + e.delta
  {
    if es == [] {
      assert [] + [e] == [e];
    } else {
      assert (es + [e])[1..] == es[1..] + [e];
      NetAtSnoc(es[1..], e, x);
    }
  }

  /** Once `x` is at or after every event, the count at `x` is the sum of all deltas. */
  lemma {:induction false} NetAtAfterAll(es: seq<Event>, x: int)
    requires forall i :: 0 <= i < |es| ==> es[i].time <= x
    ensures NetAt(es, x) == Total(es)
  {
    if es != [] {
      NetAtAfterAll(es[1..], x);
    }
  }

  lemma {:induction false} InsertNetAt(e: Event, s: seq<Event>, x: int)
    ensures NetAt(Insert(e, s), x) == NetAt(s, x) + (if e.time <= x then e.delta else 0)
    ensures Total(Insert(e, s)) == Total(s) + e.delta
  {
    if s != [] && !EventBefore(e, s[0]) {
      assert Insert(e, s)[1..] == Insert(e, s[1..]);
      InsertNetAt(e, s[1..], x);
    }
  }

  /** Sorting changes the order of events but not the count at any instant. */
  lemma {:induction false} SortNetAt(es: seq<Event>, x: int)
    ensures NetAt(SortEvents(es), x) == NetAt(es, x)
    ensures Total(SortEvents(es)) == Total(es)
  {
    if es != [] {
      SortNetAt(es[1..], x);
      InsertNetAt(es[0], SortEvents(es[1..]), x);
    }
  }

  /** How many items have started by `x`. */
  function StartedBy(items: seq<ScheduleItem>, x: int): nat
  {
    if items == [] then 0
    else (if items[0].startMinutes <= x then 1 else 0) + StartedBy(items[1..], x)
  }

  /** How many items have ended by `x`. */
  function EndedBy(items: seq<ScheduleItem>, x: int): nat
  {
    if items == [] then 0
    else (if items[0].endMinutes <= x then 1 else 0) + EndedBy(items[1..], x)
  }

  /** How many items are in progress at minute `x` (half-open `[start, end)`). */
  function ActiveAt(items: seq<ScheduleItem>, x: int): (n: nat)
    ensures n <= |items|
  {
    if items == [] then 0
    else (if items[0].startMinutes <= x < items[0].endMinutes then 1 else 0) + ActiveAt(items[1..], x)
  }

  /** The count the events give at `x` is "started by" minus "ended by", and balances to zero. */
  lemma {:induction false} EventsNetAt(items: seq<ScheduleItem>, x: int)
    ensures NetAt(Events(items), x) == StartedBy(items, x) - EndedBy(items, x)
    ensures Total(Events(items)) == 0
  {
    if items != [] {
      EventsNetAt(items[1..], x);
      var es := Events(items);
      assert es[1..][1..] == Events(items[1..]);
    }
  }

  /** For items that do not end before they start, that count is the number in progress. */
  lemma {:induction false} NetIsActive(items: seq<ScheduleItem>, x: int)
    requires forall i :: 0 <= i < |items| ==> items[i].startMinutes <= items[i].endMinutes
    ensures StartedBy(items, x) - EndedBy(items, x) == ActiveAt(items, x)
  {
    if items != [] {
      NetIsActive(items[1..], x);
    }
  }

  /** Fewer than two items never give a count of two. */
  lemma {:induction false} FewItemsNet(items: seq<ScheduleItem>, x: int)
    requires |items| < 2
    ensures StartedBy(items, x) - EndedBy(items, x) < 2
  {
    if items != [] {
      assert items[1..] == [];
    }
  }
}
