/**
 * The calendar grid: the half-hour time slots of the visible window, the
 * `clamp` helper, the mapping of a minute range onto 1-based CSS grid row
 * lines, and the rule that only whole-hour slots get a time label.
 */
module Grid {
  import opened Wrappers
  import opened TimeLabel
  import opened Schedule
  import opened Conflicts

  const DayStartMinutes: int := 8 * 60
  const DayEndMinutes: int := 22 * 60 + 30
  const SlotMinutes: int := 30

  /** `timeSlots`: the start minute of every half-hour row of the window. */
  function TimeSlots(): seq<int>
  {
    seq((DayEndMinutes - DayStartMinutes) / SlotMinutes, (index: int) => DayStartMinutes + index * SlotMinutes)
  }

  /** The window holds 29 half-hour slots, the `i`-th starting at `480 + 30 * i`; the last ends at the window's end. */
  lemma TimeSlotsShape()
    ensures |TimeSlots()| == 29
    ensures forall i :: 0 <= i < |TimeSlots()| ==> TimeSlots()[i] == 480 + 30 * i
    ensures TimeSlots()[0] == DayStartMinutes
    ensures TimeSlots()[|TimeSlots()| - 1] + SlotMinutes == DayEndMinutes
  {
  }

  /** `clamp`: `Math.min(Math.max(value, min), max)`. */
  function Clamp(value: int, min: int, max: int): (r: int)
    ensures r <= max
    ensures min <= max ==> min <= r
    ensures min <= value <= max ==> r == value
    ensures value < min && min <= max ==> r == min
    ensures value > max ==> r == max
    ensures min > max ==> r == max
  {
    var atLeast := if value > min then value else min;
    if atLeast < max then atLeast else max
  }

  lemma ClampIdempotent(value: int, min: int, max: int)
    requires min <= max
    ensures Clamp(Clamp(value, min, max), min, max) == Clamp(value, min, max)
  {
  }

  lemma ClampMonotone(v: int, w: int, min: int, max: int)
    requires v <= w
    ensures Clamp(v, min, max) <= Clamp(w, min, max)
  {
  }

  /** `Math.ceil(x / d)` for a positive divisor, written through floor division. */
  function CeilDiv(x: int, d: int): (q: int)
    requires d > 0
    ensures (q - 1) * d < x <= q * d
  {
    -((-x) / d)
  }

  /** The last grid line rows are clamped to: `timeSlots.length + 1`. */
  const LastLine: int := |TimeSlots()| + 1

  /** The first grid line of a range starting at `s`. */
  function StartRow(s: int): (r: int)
    ensures 1 <= r <= LastLine
    ensures s < DayStartMinutes + SlotMinutes ==> r == 1
    ensures s >= DayEndMinutes ==> r == LastLine
  {
    Clamp((s - DayStartMinutes) / SlotMinutes + 1, 1, LastLine)
  }

  /** The grid line after a range ending at `e`. */
  function EndRow(e: int): (r: int)
    ensures 1 <= r <= LastLine
    ensures e <= DayStartMinutes ==> r == 1
    ensures e > DayEndMinutes - SlotMinutes ==> r == LastLine
  {
    Clamp(CeilDiv(e - DayStartMinutes, SlotMinutes) + 1, 1, LastLine)
  }

  /** A CSS `gridRow: start / end` placement. */
  datatype RowSpan = RowSpan(startRow: int, endRow: int)

  /** The placement of `[s, e)`, or `None` when it is dropped because `endRow <= startRow`. */
  function RowRange(s: int, e: int): (r: Option<RowSpan>)
    ensures r.Some? ==> 1 <= r.value.startRow < r.value.endRow <= LastLine
  {
    var startRow := StartRow(s);
    var endRow := EndRow(e);
    if endRow <= startRow then None else Some(RowSpan(startRow, endRow))
  }

  /** The placement of a conflict block. */
  function BlockRows(block: ConflictBlock): (r: Option<RowSpan>)
    ensures r.Some? ==> 1 <= r.value.startRow < r.value.endRow <= LastLine
    ensures block.startMinutes < block.endMinutes ==>
      (r.Some? <==> block.startMinutes < DayEndMinutes && block.endMinutes > DayStartMinutes)
  {
    var r := RowRange(block.startMinutes, block.endMinutes);
    if block.startMinutes < block.endMinutes then RowRangeShown(block.startMinutes, block.endMinutes); r else r
  }

  /** The placement of a schedule item. */
  function ItemRows(item: ScheduleItem): (r: Option<RowSpan>)
    ensures r.Some? ==> 1 <= r.value.startRow < r.value.endRow <= LastLine
    ensures item.startMinutes < item.endMinutes ==>
      (r.Some? <==> item.startMinutes < DayEndMinutes && item.endMinutes > DayStartMinutes)
  {
    var r := RowRange(item.startMinutes, item.endMinutes);
    if item.startMinutes < item.endMinutes then RowRangeShown(item.startMinutes, item.endMinutes); r else r
  }

  /** Row `k` (a 1-based grid row, between lines `k` and `k + 1`) shows the slot starting at `timeSlots[k - 1]`. */
  function SlotStart(k: int): int
    requires 1 <= k <= |TimeSlots()|
  {
    TimeSlots()[k - 1]
  }

  lemma StartRowAtMost(s: int, k: int)
    requires 1 <= k <= |TimeSlots()|
    ensures StartRow(s) <= k <==> s < SlotStart(k) + SlotMinutes
  {
    TimeSlotsShape();
  }

  lemma EndRowBeyond(e: int, k: int)
    requires 1 <= k <= |TimeSlots()|
    ensures k < EndRow(e) <==> e > SlotStart(k)
  {
    TimeSlotsShape();
  }

  /**
   * The placement is exact: grid row `k` is part of the placement of
   * `[s, e)` iff the range shares a minute with row `k`'s slot.
   */
  lemma RowRangeExact(s: int, e: int, k: int)
    requires 1 <= k <= |TimeSlots()|
    ensures (RowRange(s, e).Some? && RowRange(s, e).value.startRow <= k < RowRange(s, e).value.endRow)
      <==> (s < SlotStart(k) + SlotMinutes && e > SlotStart(k))
  {
    StartRowAtMost(s, k);
    EndRowBeyond(e, k);
  }

  /** A non-empty range is drawn iff it overlaps the visible window `[480, 1350)`. */
  lemma RowRangeShown(s: int, e: int)
    requires s < e
    ensures RowRange(s, e).Some? <==> s < DayEndMinutes && e > DayStartMinutes
  {
    TimeSlotsShape();
    if s < DayEndMinutes && e > DayStartMinutes {
      var lo := if s > DayStartMinutes then s else DayStartMinutes;
      var k := (lo - DayStartMinutes) / SlotMinutes + 1;
      assert 1 <= k <= |TimeSlots()|;
      RowRangeExact(s, e, k);
    }
  }

  lemma RowRangeExamples()
    ensures RowRange(0, 500) == Some(RowSpan(1, 2))
    ensures RowRange(1400, 1420) == None
  {
    TimeSlotsShape();
  }

  /** `showLabel`: only whole-hour slots are labelled. */
  predicate ShowLabel(slot: int)
  {
    slot % 60 == 0
  }

  /** The text of the time-label cell for `slot`. */
  function SlotLabel(slot: nat): (r: string)
    ensures !ShowLabel(slot) ==> r == ""
    ensures ShowLabel(slot) ==> |r| == 8 && AllDigits(r[3..5]) && DecimalValue(r[3..5]) == 0
  {
    if ShowLabel(slot) then ToTimeLabel(slot) else ""
  }

  /** Every other slot, starting with the first, is labelled. */
  lemma LabelledSlots(i: int)
    requires 0 <= i < |TimeSlots()|
    ensures ShowLabel(TimeSlots()[i]) <==> i % 2 == 0
  {
    TimeSlotsShape();
  }

  /**
   * The label of the `i`-th slot is empty for odd `i` and otherwise names the
   * hour `8 + i / 2` on the 12-hour clock with minutes `00`.
   */
  lemma SlotLabelText(i: int)
    requires 0 <= i < |TimeSlots()|
    ensures i % 2 == 1 ==> SlotLabel(TimeSlots()[i]) == ""
    ensures i % 2 == 0 ==>
      var text := SlotLabel(TimeSlots()[i]);
      |text| == 8 && DecimalValue(text[..2]) % 12 == (8 + i / 2) % 12 && text[2..5] == ":00"
      && text[6..] == (if 8 + i / 2 < 12 then "AM" else "PM")
  {
    TimeSlotsShape();
    LabelledSlots(i);
    if i % 2 == 0 {
      var m := TimeSlots()[i];
      assert m == 480 + 30 * i;
      HourSlot(i, m);
      var text := ToTimeLabel(m);
      assert DecimalValue(text[3..5]) == 0;
      ZeroMinutes(text[3..5]);
    }
  }

  lemma HourSlot(i: int, m: int)
    requires 0 <= i < 29 && i % 2 == 0 && m == 480 + 30 * i
    ensures m % 60 == 0 && (m / 60) % 12 == (8 + i / 2) % 12 && (m < 720 <==> 8 + i / 2 < 12)
  {
  }

  lemma ZeroMinutes(d: string)
    requires |d| == 2 && AllDigits(d) && DecimalValue(d) == 0
    ensures d == "00"
  {
    DecimalValue2(d);
  }
}
