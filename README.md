# SchedulePlannerUPM scheduling engine, in Dafny

SchedulePlannerUPM is a single-page weekly timetable planner. The user picks
course sections from a catalog. The page then lays every meeting out on a
Sunday-to-Saturday grid and shades the time ranges where two or more meetings
overlap. This project models the engine behind that page and proves
properties about it. The engine is the pure logic of `src/App.tsx`:

- the time normaliser (`toMinutes`, `toTimeLabel`);
- the occurrence expander (`scheduleItems`);
- the sweep-line conflict detector (`conflictBlocks`);
- the grid mapper (`timeSlots`, `clamp`, the row-range computation, the hour-label rule);
- the selection and search helpers (`addCourse`, `removeCourse`, `selectedCourses`,
  `matchingCourses`, `availableMatches`).

Modules, one per file:

| file | module | models |
|---|---|---|
| `wrappers.dfy` | `Wrappers` | `Option`: a JavaScript `undefined` / `null` |
| `seqs.dfy` | `Seqs` | `Array.prototype.filter` and its algebra |
| `time_label.dfy` | `TimeLabel` | `toMinutes`, `toTimeLabel`, digit strings, `split`, `padStart` |
| `schedule.dfy` | `Schedule` | `Course`, `ScheduleItem`, `dayIndexByShortName`, `scheduleItems` |
| `sweep_events.dfy` | `SweepEvents` | the `+1`/`-1` events, their comparator and sort, the event counts |
| `conflicts.dfy` | `Conflicts` | the `conflictBlocks` buckets and sweep |
| `conflict_properties.dfy` | `ConflictProperties` | coverage and shape of the conflict blocks |
| `conflict_examples.dfy` | `ConflictExamples` | worked instances of the sweep |
| `grid.dfy` | `Grid` | `timeSlots`, `clamp`, grid rows, hour labels |
| `selection.dfy` | `Selection` | selection keys, `addCourse`/`removeCourse`, search |
| `planner.dfy` | `Planner` | the chain selection → items → conflict blocks |

How the code's form is kept:

- `scheduleItems` pushes into an array inside two nested `forEach` loops.
  It is `Schedule.ExpandItems`, a method with a `for` loop that calls
  `Schedule.PushDayItems` for the inner loop, where an unknown code is a `continue`.
  Both are proved equal to the functional fold `Schedule.Expansion`.
- `conflictBlocks` is `Conflicts.ComputeConflictBlocks`:
  - it pushes each item into the `itemsByDay` array of seven buckets;
  - it skips any bucket with fewer than two items;
  - it runs `Conflicts.SweepDay` on the sorted events; this loop keeps
    `activeCount` and `conflictStart` as local variables and has the source's
    three branches.
- Each loop is proved equal to a fold: `Conflicts.Sweep` of `Conflicts.Step` per
  weekday, and `Conflicts.AllBlocks` over the weekdays. The properties are then
  proved about the folds.
- The rest of the engine is expressions over immutable arrays and strings, so
  it is modelled as functions.

The central theorem is `ConflictProperties.ConflictCoverage`. A minute x of
weekday d lies in a conflict block exactly when, among that day's items, the
number that have started by x minus the number that have ended by x is at
least two. `ConflictProperties.ConflictCoverageActive` restates this for
items that do not end before they start: a minute is covered exactly when at
least two items are in progress. The proof rests on
`ConflictProperties.SweepInv`, an invariant of the fold `Conflicts.Sweep` that
`ConflictProperties.SweepKeepsInv` shows each step preserves (the loop
invariants of `Conflicts.SweepDay` only equate the loop with that fold). It
covers three things:

- the running count;
- the open-region marker;
- the blocks emitted so far and the minutes they cover before the latest event.

JavaScript's number and string operations are written out:

- `Math.floor(x / 30)` is Dafny's `/`, which is floor division for a positive divisor.
- `Math.ceil` is `-((-x) / 30)`.
- `Number` of a digit string is its decimal value, and `Number("")` is 0.
- `split` takes the text up to the first separator and the piece after it.
- `padStart` prefixes fill characters.
- `trim` strips the JavaScript whitespace and line-terminator characters.
- `Array.prototype.sort` with the comparator `a.time - b.time || a.delta - b.delta`
  is an insertion sort by that order. `SweepEvents.SortedUnique` shows that the
  sorted list is unique, so any correct sort gives the same events.

Three facts about the code that a reader may not expect:

- **Conflict blocks are not always maximal ranges.** The events are sorted so
  that an end comes before a start at the same minute. So at a hand-off (one
  item ends at t, another starts at t, a third runs through) the count dips
  below two and the range splits into two touching blocks.
  `ConflictExamples.HandOffSplits` shows `[480,600)`, `[540,660)`, `[600,700)`
  giving `[540,600)` and `[600,660)`, although `ConflictExamples.HandOffBusy`
  shows that two items are in progress throughout `[540,660)`. What holds in
  general is coverage, order and disjointness, not maximality.
- **Grid rows are 1-based CSS grid lines.** A range `[s, e)` is placed from
  line `floor((s − 480) / 30) + 1` to line `ceil((e − 480) / 30) + 1`, both
  clamped to `[1, timeSlots.length + 1] = [1, 30]`
  (`src/App.tsx:357-372`, `387-402`).
- **`toMinutes` does not validate.** It has no error path
  (`src/App.tsx:60-75`):
  - an hour such as `13` is simply used;
  - a missing or unknown meridiem leaves the hour unchanged;
  - a non-numeric piece gives `NaN`.
  The model takes a subset of the labels the code turns into a number: the
  text before the first space contains a colon, and the hour and minute pieces
  are digit strings, possibly empty. This is `TimeLabel.WellFormed`. Labels
  that `Number` also reads, with a sign, a decimal point, an exponent or a hex
  prefix (`toMinutes("-1:00 AM")` is −60), are outside it. On those labels it
  follows the code's branches, with the number width noted under "Left out".

## Model

| member | source | states |
|---|---|---|
| `TimeLabel.WellFormed` | src/App.tsx:60-64 | the labels the model accepts, a subset of those `toMinutes` turns into a number: the text before the first space holds a colon, and the hour and minute pieces of it are digit strings only |
| `TimeLabel.DecimalValue` | src/App.tsx:63-64 | `Number(hoursString)` and `Number(minutesString)` on a digit string: its decimal value, 0 for the empty string; `TimeLabel.Pad2Digits` and `TimeLabel.Pad2OfValue` tie it to the two-digit fields |
| `TimeLabel.ToMinutes` | src/App.tsx:60-75 | `toMinutes` on such a label is never negative, and with no `AM`/`PM` piece it is `hours * 60 + minutes` unadjusted; its full arithmetic on 12-hour labels is `TimeLabel.ToMinutesOfLabel` |
| `TimeLabel.ToMinutesOfLabel` | src/App.tsx:60-75 | for a label `hh:mm AM/PM` with hour 1–12 and minute 0–59, `toMinutes` returns `(h mod 12 + 12·[PM])·60 + m`: PM adds 12 unless the hour is 12, 12 AM is 0; the result lies in `[0,1440)`, below 720 exactly for AM |
| `TimeLabel.ToTimeLabel` | src/App.tsx:77-91 | the label is 8 characters `HH:MM XM`; the two-digit hour is 1–12 and agrees with `floor(m/60)` mod 12; the two-digit minutes are `m mod 60`; the meridiem is `AM` exactly when `m < 720` |
| `TimeLabel.ClockHour` | src/App.tsx:80-85 | the 12-hour clock hour (`hours24 % 12`, with 0 shown as 12) lies in 1–12 |
| `TimeLabel.TimeRoundTrip` | src/App.tsx:60-91 | for every minute of the day `m < 1440`, `toTimeLabel(m)` is a label `toMinutes` accepts, and `toMinutes(toTimeLabel(m)) == m` |
| `TimeLabel.ToTimeLabelCanonical` | src/App.tsx:77-91 | every label produced for `m < 1440` is canonical: two-digit hour 1–12, colon, two-digit minute below 60, space, `AM`/`PM` |
| `TimeLabel.LabelRoundTrip` | src/App.tsx:60-91 | every canonical label is accepted by `toMinutes`, parses into `[0,1440)`, and formats back to itself character for character |
| `TimeLabel.Pad2` | src/App.tsx:87-90 | `String(n).padStart(2, "0")`, the two-character field of `toTimeLabel`; what it yields is stated by `TimeLabel.Pad2Digits` and `TimeLabel.Pad2OfValue` |
| `TimeLabel.Pad2Digits` | src/App.tsx:87-90 | for `n < 100` the padded form is exactly the two digits `n / 10` and `n % 10`, a digit string whose value is `n` |
| `TimeLabel.Pad2OfValue` | src/App.tsx:87-90 | every two-digit string is `String(n).padStart(2, "0")` of its own value `n < 100` |
| `TimeLabel.SplitAt` | src/App.tsx:61-62 | splitting `a + sep + b`, where `a` has no `sep`, gives `a` as the first piece and `b` as the rest |
| `Schedule.DayIndexByShortName` | src/App.tsx:39-47 | the weekday table gives only indices below 7 |
| `Schedule.DayIndexTable` | src/App.tsx:39-47 | a code has an index exactly when it is one of `Sun`…`Sat`, and the table maps each code to its own position in that list |
| `Schedule.DayIndexOfCode` | src/App.tsx:39-47 | the `i`-th weekday code maps to index `i` |
| `Schedule.DayItems` | src/App.tsx:131-144 | the items the inner `course.days.forEach` pushes for one course; their content is stated by `Schedule.DayItemsExactly` |
| `Schedule.Expansion` | src/App.tsx:124-148 | `scheduleItems` as a fold over the selected courses; its length, order, soundness and completeness are `Schedule.ExpansionLength`, `Schedule.ExpansionConcat`, `Schedule.ExpansionItemsSound` and `Schedule.ExpansionItemsComplete` |
| `Schedule.ExpandItems` | src/App.tsx:124-148 | the nested `forEach` loops push exactly the items of the expansion fold |
| `Schedule.PushDayItems` | src/App.tsx:131-144 | the inner loop over one course's day codes appends exactly that course's items and skips unknown codes |
| `Schedule.DayItemsExactly` | src/App.tsx:131-144 | one course yields one item per recognised code, in code order, each carrying the course, that code's table index and the parsed start and end |
| `Schedule.ExpansionLength` | src/App.tsx:124-148 | the number of items is the number of recognised day codes across the selected courses |
| `Schedule.ExpansionConcat` | src/App.tsx:127-145 | items come in course order: the expansion of a concatenation is the concatenation of the expansions |
| `Schedule.ExpansionItemsSound` | src/App.tsx:124-148 | every item's course is selected, its weekday is below 7 and is one the course lists, and its times are the course's parsed times |
| `Schedule.ExpansionItemsComplete` | src/App.tsx:131-144 | every recognised code of every selected course yields its item |
| `Schedule.UnknownCodesSkipped` | src/App.tsx:132-136 | a course with no recognised code contributes nothing |
| `SweepEvents.Events` | src/App.tsx:165-169 | the `flatMap` yields exactly two events per item; their contents are `SweepEvents.EventsContents` |
| `SweepEvents.EventsContents` | src/App.tsx:165-169 | item `i` contributes `{ time: start, delta: 1 }` at position `2i` and `{ time: end, delta: -1 }` at position `2i + 1` |
| `SweepEvents.EventBefore` | src/App.tsx:170 | the order the comparator sorts by: earlier time first, and at equal times the smaller delta, an end before a start; `SweepEvents.EventBeforeIsComparator` ties it to the comparator |
| `SweepEvents.Compare` | src/App.tsx:170 | the comparator: `a.time - b.time`, or, when that is 0 and so falsy for `or`, `a.delta - b.delta` |
| `SweepEvents.EventBeforeIsComparator` | src/App.tsx:170 | `a` may precede `b` exactly when the comparator is not positive; the order is total, antisymmetric, and the comparator is antisymmetric in sign |
| `SweepEvents.SortEvents` | src/App.tsx:165-170 | the events are sorted by time, then by delta (an end before a start at the same minute), and are a permutation of the input |
| `SweepEvents.Insert` | src/App.tsx:170 | inserting into a sorted list keeps it sorted and adds exactly one event |
| `SweepEvents.SortedUnique` | src/App.tsx:170 | two sorted permutations of one event list are equal, so the comparator fixes the result of any sort |
| `SweepEvents.SortNetAt` | src/App.tsx:165-170 | sorting does not change how much the events at or before any minute add up to |
| `SweepEvents.EventsNetAt` | src/App.tsx:165-169 | the events at or before minute x sum to the items started by x less the items ended by x, and all events sum to 0 |
| `SweepEvents.NetIsActive` | src/App.tsx:165-169 | for items that do not end before they start, that sum is the number of items in progress at x |
| `SweepEvents.FewItemsNet` | src/App.tsx:160-163 | with fewer than two items the count never reaches two, so skipping such days loses nothing |
| `Conflicts.Bucket` | src/App.tsx:156-158 | `itemsByDay[day]`: the items on that weekday in item order (a filter, whose order and membership facts are in `Seqs`) |
| `Conflicts.Step` | src/App.tsx:176-191 | one turn of `events.forEach`: open a region when the count rises to 2, emit `[conflictStart, t)` when it falls below 2 (only if `t > conflictStart`), then move the count; `ConflictProperties.StepInv` states what it preserves |
| `Conflicts.Sweep` | src/App.tsx:172-192 | the sweep of one day's events from `activeCount = 0`, `conflictStart = null`; its invariant is `ConflictProperties.SweepKeepsInv` |
| `Conflicts.DayBlocks` | src/App.tsx:160-192 | one weekday's blocks: none under two items, else the sweep of the sorted events; proved by `ConflictProperties.DayBlocksCoverage` and `ConflictProperties.DayBlocksShape` |
| `Conflicts.AllBlocks` | src/App.tsx:150-196 | `conflictBlocks`: the weekdays' blocks, Sunday to Saturday; proved by `ConflictProperties.ConflictCoverage` and `ConflictProperties.AllBlocksShape` |
| `Conflicts.ComputeConflictBlocks` | src/App.tsx:150-196 | bucketing, skipping days with fewer than two items, and sweeping each day's sorted events produces exactly the blocks of the per-weekday fold |
| `Conflicts.SweepDay` | src/App.tsx:172-192 | the `events.forEach` loop appends exactly the blocks of the step-by-step sweep, in order |
| `ConflictProperties.SweepKeepsInv` | src/App.tsx:172-192 | over time-sorted events the sweep keeps its invariant: the running count, a region open iff the count is at least two, blocks on the day with positive length, sorted and disjoint, and the minutes before the latest event covered iff the count there is at least two |
| `ConflictProperties.SweepCoverage` | src/App.tsx:172-192 | over balanced time-sorted events the blocks cover a minute exactly when the events at or before it add up to at least two |
| `ConflictProperties.DayBlocksCoverage` | src/App.tsx:160-192 | a weekday's blocks cover a minute exactly when the day's started-minus-ended count there is at least two |
| `ConflictProperties.DayBlocksShape` | src/App.tsx:160-192 | a weekday's blocks lie on that day, have positive length, are sorted and pairwise disjoint, and exist only when the day has at least two items |
| `ConflictProperties.ConflictCoverage` | src/App.tsx:150-196 | a minute of weekday d is in a conflict block iff the number of d's items started by then less the number ended by then is at least two |
| `ConflictProperties.ConflictCoverageActive` | src/App.tsx:150-196 | for items that do not end before they start, a minute of weekday d is in a conflict block iff at least two of d's items are in progress at it |
| `ConflictProperties.AllBlocksShape` | src/App.tsx:150-196 | every block has `start < end` and a weekday below 7 with at least two items; blocks come by weekday and, within a weekday, sorted by start and pairwise disjoint |
| `ConflictProperties.SingleDayBlocks` | src/App.tsx:155-163 | when all items lie on one weekday, the blocks are that weekday's sweep alone |
| `ConflictProperties.NeverTwoNoBlocks` | src/App.tsx:172-192 | if no weekday's count ever reaches two there are no blocks |
| `ConflictProperties.BackToBackNoConflict` | src/App.tsx:165-192 | two items on one weekday where one ends exactly when the other starts give no conflict block, in either order in the list |
| `ConflictProperties.NoItemsNoBlocks` | src/App.tsx:150-196 | no items give no blocks |
| `ConflictExamples.TripleExample` | src/App.tsx:150-196 | `[480,600)`, `[540,660)`, `[620,700)` on Monday give the blocks `[540,600)` and `[620,660)` |
| `ConflictExamples.HandOffSplits` | src/App.tsx:165-192 | `[480,600)`, `[540,660)`, `[600,700)` on Monday give two touching blocks `[540,600)` and `[600,660)` |
| `ConflictExamples.HandOffBusy` | src/App.tsx:165-192 | in that example two items are in progress at every minute of `[540,660)` |
| `Grid.TimeSlots` | src/App.tsx:53-56 | `timeSlots`, the start minute of every half-hour row; its shape is `Grid.TimeSlotsShape` |
| `Grid.TimeSlotsShape` | src/App.tsx:49-56 | `timeSlots` has `(1350 − 480) / 30 = 29` entries, the i-th is `480 + 30·i`, and the last slot ends at 1350 |
| `Grid.Clamp` | src/App.tsx:93-94 | the result never exceeds `max`; for `min <= max` it lies in `[min, max]`, equals `value` inside the range, `min` below it and `max` above it; for `min > max` it is `max` |
| `Grid.ClampIdempotent` | src/App.tsx:93-94 | clamping twice is clamping once |
| `Grid.ClampMonotone` | src/App.tsx:93-94 | clamping preserves order |
| `Grid.CeilDiv` | src/App.tsx:365 | `-((-x)/d)` is `Math.ceil(x/d)`: the least `q` with `q·d >= x` |
| `Grid.StartRow` | src/App.tsx:358-363 | the first grid line lies in `[1, 30]`; a range starting before 8:30 AM starts on line 1, one starting at or after 10:30 PM on line 30 |
| `Grid.EndRow` | src/App.tsx:364-368 | the end grid line lies in `[1, 30]`; a range ending by 8:00 AM ends on line 1, one ending after 10:00 PM on line 30 |
| `Grid.RowRange` | src/App.tsx:357-372 | a drawn range starts on a grid line in `[1, 30]` and ends on a later line, at most 30 |
| `Grid.RowRangeExact` | src/App.tsx:387-402 | grid row k (1–29) is part of a range's placement iff the range shares a minute with row k's half-hour slot |
| `Grid.RowRangeShown` | src/App.tsx:357-372 | a non-empty range is drawn (not dropped by `endRow <= startRow`) iff it overlaps the window `[480, 1350)` |
| `Grid.BlockRows` | src/App.tsx:357-372 | a drawn conflict block spans lines `1 <= startRow < endRow <= 30`, and a block with start < end is drawn iff it overlaps `[480, 1350)` |
| `Grid.ItemRows` | src/App.tsx:387-402 | a drawn item spans lines `1 <= startRow < endRow <= 30`, and an item with start < end is drawn iff it overlaps `[480, 1350)` |
| `Grid.RowRangeExamples` | src/App.tsx:357-372 | `[0,500)` is placed on lines 1 to 2; `[1400,1420)` is dropped |
| `Grid.ShowLabel` | src/App.tsx:335 | `showLabel`, a slot on the whole hour; which slots that is, is `Grid.LabelledSlots` |
| `Grid.SlotLabel` | src/App.tsx:334-345 | an unlabelled slot shows the empty string; a labelled one shows an 8-character label whose minutes read `00` (value 0) |
| `Grid.LabelledSlots` | src/App.tsx:335 | slot i is on the hour (`% 60 == 0`) exactly when i is even |
| `Grid.SlotLabelText` | src/App.tsx:334-345 | odd slots have an empty label; slot 2j reads `HH:00 AM/PM` for hour `8 + j` on the 12-hour clock |
| `Selection.Key` | src/App.tsx:199 | the selection key `${id}-${section}`; `Selection.KeyCollision` and `Selection.KeyInjective` say when it identifies a course |
| `Selection.KeyCollision` | src/App.tsx:199 | keys `${id}-${section}` collide: `("A-1","2")` and `("A","1-2")` give the same key |
| `Selection.KeyInjective` | src/App.tsx:199 | with hyphen-free ids, equal keys mean equal id and section |
| `Selection.AddCourse` | src/App.tsx:198-204 | a key already present leaves the list unchanged; a new key is appended at the end; either way the key is present afterwards and the keys are the old keys plus the course's key |
| `Selection.AddIdempotent` | src/App.tsx:198-204 | adding a course twice is adding it once |
| `Selection.AddKeepsDistinct` | src/App.tsx:198-204 | adding never creates a duplicate key |
| `Selection.RemoveCourse` | src/App.tsx:206-209 | the key is gone afterwards and every other key is kept |
| `Selection.RemoveKeepsOthers` | src/App.tsx:206-209 | every other key keeps its multiplicity, and removal distributes over concatenation, so order is kept |
| `Selection.RemoveAbsent` | src/App.tsx:206-209 | removing a key that is not there changes nothing |
| `Selection.RemoveAfterAdd` | src/App.tsx:198-209 | removing a course just added to a list without it restores the list |
| `Selection.AddAfterRemove` | src/App.tsx:198-209 | adding a course just removed puts its key once, at the end |
| `Selection.SelectedCourses` | src/App.tsx:112-118 | a course is selected iff it is in the catalog and its key is in the list |
| `Selection.SelectedInCatalogOrder` | src/App.tsx:112-118 | selection distributes over catalog concatenation, so courses keep catalog order |
| `Selection.SelectedDependsOnKeySet` | src/App.tsx:112-118 | only the set of selected keys matters, not their order or repeats |
| `Selection.NothingSelected` | src/App.tsx:112-118 | an empty key list selects nothing |
| `Selection.Trim` | src/App.tsx:100 | `trim`: strip leading, then trailing, JavaScript whitespace; its meaning is `Selection.TrimSpec` |
| `Selection.TrimSpec` | src/App.tsx:100 | `trim` yields the input less leading and trailing whitespace; the result neither starts nor ends with whitespace |
| `Selection.TrimAllSpace` | src/App.tsx:100 | a whitespace-only string trims to empty |
| `Selection.TrimPadded` | src/App.tsx:100 | whitespace around a string does not change its trimmed form |
| `Selection.ToLower` | src/App.tsx:100 | `toLowerCase` on ASCII letters, keeping the length; its meaning is `Selection.ToLowerSpec` |
| `Selection.NormalizedQuery` | src/App.tsx:100 | `normalizedQuery`, the trimmed, lower-cased query; `Selection.BlankQueryMatchesNothing` and `Selection.PaddedQuerySameMatches` state what follows |
| `Selection.ToLowerSpec` | src/App.tsx:100 | lower-casing turns each capital `A`–`Z` into the small letter at the same alphabet position, leaves no upper-case ASCII letter, keeps every other character and is idempotent |
| `Selection.Includes` | src/App.tsx:108 | `includes`, a prefix match at the first position or further on; its meaning is `Selection.IncludesAt` |
| `Selection.IncludesAt` | src/App.tsx:108 | `includes` holds iff the query occurs at some position of the id |
| `Selection.MatchingCourses` | src/App.tsx:102-110 | an empty normalised query gives no match; otherwise a course matches iff it is in the catalog and its lower-cased id contains the query |
| `Selection.BlankQueryMatchesNothing` | src/App.tsx:102-106 | an empty or whitespace-only query gives no match |
| `Selection.PaddedQuerySameMatches` | src/App.tsx:100-110 | whitespace around the query does not change the matches |
| `Selection.AvailableMatches` | src/App.tsx:211-213 | a course is offered iff it matches and its key is not selected |
| `Selection.AvailableDisjointFromSelected` | src/App.tsx:211-213 | no course is both offered by `availableMatches` and in `selectedCourses` (lines 112-118) |
| `Selection.AddedNotAvailable` | src/App.tsx:198-213 | after adding a catalog course it is selected and no longer offered |
| `Selection.RemovedNotSelected` | src/App.tsx:206-209 | after removing a course no course with its key is selected |
| `Planner.PlanSchedule` | src/App.tsx:112-196 | the selected courses, their items and the conflict blocks are exactly the specification functions of catalog and keys |
| `Planner.PlannedItemsSelected` | src/App.tsx:112-148 | every scheduled item comes from a catalog course whose key is selected, on a weekday below 7 that the course lists |
| `Planner.EmptySelection` | src/App.tsx:112-196 | with nothing selected there are no items and no conflict blocks |
| `Planner.RemovedCourseUnscheduled` | src/App.tsx:124-148 | after removing a course none of its key's items is scheduled |

## Left out

- Rendering is not modelled: the JSX, `useState`/`useMemo`, CSS, `zIndex` and
  the `categories` grouping. The memoised values are plain functions of their
  inputs (`src/App.tsx:120-122`, `215-427`).
- React's state timing is not modelled. Two `addCourse` calls in one render
  both test the same stale `selectedCourseIds`. The model applies each update
  to the current list.
- The catalog import (`src/data/courses.json`) is not modelled. The catalog is a parameter.
- `TimeLabel.ToMinutes` requires `TimeLabel.WellFormed`. `Number()` on
  anything other than a digit string is not modelled: neither the labels it
  still reads (signs, decimal points, exponents, hex, `Infinity`) nor `NaN`.
- Numbers are unbounded integers. JavaScript numbers are IEEE doubles, so
  `Number` of a digit string agrees with `TimeLabel.DecimalValue` only below
  2^53 (`Number("9007199254740993")` is `9007199254740992`). The model
  assumes catalog times have short digit pieces; the catalog file is not
  part of this model.
- `TimeLabel.ToTimeLabel` takes a non-negative number of minutes. A negative
  argument, where JavaScript's `%` differs from Dafny's, is not modelled.
- Weekday codes are compared as exact strings. A code that is a property of
  `Object.prototype`, such as `constructor`, is treated as unknown. The code
  would read a non-number from the table for it.
- `Selection.ToLower` lower-cases only the ASCII letters. `toLowerCase` maps
  all of Unicode.
- `web_scraper.py` (browser automation) and `main.py` (a desktop UI) are not part of this model.
- `Conflicts.ComputeConflictBlocks` requires every item's weekday to be below
  7. Items come only from `Schedule.ExpandItems`, which proves that
  (`Schedule.ExpansionItemsSound`).
