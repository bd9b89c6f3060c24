/** The run of dates the tracker's columns show (src/hooks/useVisibleDates.ts):
    how many date columns fit in the window, and the recalculation that
    keeps the first date shown and refills the run to that many days. The
    window width is a parameter; the resize listener is not modelled. */
module VisibleDates {
  import opened Wrappers
  import opened Civil
  import opened Text
  import opened Dates

  /** Width of one date cell at the responsive breakpoints 1024 and 640. */
  function CellWidth(width: int): (w: nat)
    ensures w == 40 || w == 48 || w == 56
  {
    if width >= 1024 then 56
    else if width >= 640 then 48
    else 40
  }

  /** Width taken by the habit name column and the paddings: 120 + 8 + 16. */
  const ReservedWidth: int := 144

  /** The fewest columns ever shown. */
  const MinCount: nat := 5

  /** `calculateDateCount`'s count: `max(5, floor((width − 144) / cell))`.
      Dafny's `/` is floor division for a positive divisor, as `Math.floor`
      of the quotient is. */
  function DateCount(width: int): (count: nat)
    ensures count >= MinCount
  {
    var available := width - ReservedWidth;
    var fit := available / CellWidth(width);
    if fit > MinCount then fit else MinCount
  }

  /** The count is the number of whole cells that fit in the width left
      over, but never below 5: above 5 those cells fit and one more would
      not; at 5, six cells would not fit. */
  lemma DateCountFits(width: int)
    ensures var count, cell := DateCount(width), CellWidth(width);
      count > MinCount ==> count * cell <= width - ReservedWidth < (count + 1) * cell
    ensures var count, cell := DateCount(width), CellWidth(width);
      count == MinCount ==> width - ReservedWidth < (MinCount + 1) * cell
  {
    var available, cell := width - ReservedWidth, CellWidth(width);
    var fit := available / cell;
    assert fit * cell <= available < (fit + 1) * cell;
  }

  /** The widths of a desktop, a tablet, a phone and a very narrow window. */
  lemma DateCountExamples()
    ensures DateCount(1200) == 18
    ensures DateCount(768) == 13
    ensures DateCount(480) == 8
    ensures DateCount(200) == 5
  {
  }

  /** Within one breakpoint band a wider window never shows fewer dates. */
  lemma DateCountMonotoneInBand(v: int, w: int)
    requires v <= w && CellWidth(v) == CellWidth(w)
    ensures DateCount(v) <= DateCount(w)
  {
  }

  /** Across the 1024 breakpoint the wider cells make the count drop. */
  lemma DateCountDropsAtBreakpoint()
    ensures DateCount(1023) == 18 && DateCount(1024) == 15
  {
  }

  /** What `toDateStringLocal` prints for an invalid date: each part is NaN. */
  const InvalidDateString: string := "NaN-NaN-NaN"

  /** An invalid date's string does not parse again. */
  lemma InvalidDateStringParse()
    ensures ParseDateStringLocal(InvalidDateString) == None
  {
    var nan, rest := "NaN", "NaN-NaN";
    assert InvalidDateString == nan + "-" + rest;
    NoCharMatch(nan, '-', rest);
    SplitAfterFirst(nan, "-", rest);
    assert SplitOn(InvalidDateString, "-")[0] == nan;
    assert !IsDigit(nan[0]) && nan[0] != '-';
    assert NumberOf(nan) == None;
  }

  /** `getDatesInRange(parseDateStringLocal(prev[0]), count)`: the `count`
      days counting back from the first date shown, or `count` invalid date
      strings when that date does not parse. */
  function Recalculated(prev: seq<string>, count: nat): (r: seq<string>)
    requires |prev| > 0
    ensures |r| == count
  {
    match ParseDateStringLocal(prev[0])
    case Some(start) => GetDatesInRange(start, count, false)
    case None => seq(count, _ => InvalidDateString)
  }

  /** When the first date shown reads back (a date from year 100 on), the
      new run is the `count` days counting back from that date, so it has
      the new length and starts at that same date. */
  lemma RecalculatedKeepsFirstDate(prev: seq<string>, count: nat, start: Day)
    requires |prev| > 0 && prev[0] == ToDateStringLocal(start) && Year(start) >= 100
    ensures Recalculated(prev, count) == GetDatesInRange(start, count, false)
    ensures |Recalculated(prev, count)| == count
    ensures count > 0 ==> Recalculated(prev, count)[0] == prev[0]
  {
    ParseFormat(start);
    if count > 0 {
      assert DaysInRange(start, count, false)[0] == start;
    }
  }

  /** The first date of a run either reads back or does not parse; then
      recalculating twice with the same count is recalculating once, so a
      resize that keeps the count keeps the run. */
  lemma RecalculatedIdempotent(prev: seq<string>, count: nat)
    requires |prev| > 0 && count > 0
    requires ParseDateStringLocal(prev[0]).Some? ==> Year(ParseDateStringLocal(prev[0]).value) >= 100
    ensures Recalculated(Recalculated(prev, count), count) == Recalculated(prev, count)
  {
    var r := Recalculated(prev, count);
    match ParseDateStringLocal(prev[0])
    case Some(start) =>
      assert r[0] == ToDateStringLocal(start);
      ParseFormat(start);
    case None =>
      InvalidDateStringParse();
  }

  /** The hook's state. */
  class VisibleDatesState {
    var visibleDatesCount: nat
    var visibleDates: seq<string>

    /** The initial state: 5 columns, counting back from today. */
    constructor(today: Day)
      ensures visibleDatesCount == MinCount
      ensures visibleDates == GetDatesInRange(today, MinCount, false)
    {
      visibleDatesCount := MinCount;
      visibleDates := GetDatesInRange(today, MinCount, false);
    }

    /** `setVisibleDates`, handed out to the scrolling code. */
    method SetVisibleDates(dates: seq<string>)
      modifies this
      ensures visibleDates == dates && visibleDatesCount == old(visibleDatesCount)
    {
      visibleDates := dates;
    }

    /** `calculateDateCount()` for the window width `width`. Reading
        `prev[0]` of an empty run throws in the source, so a run is needed. */
    method CalculateDateCount(width: int)
      requires |visibleDates| > 0
      modifies this
      ensures visibleDatesCount == DateCount(width)
      ensures visibleDates == Recalculated(old(visibleDates), visibleDatesCount)
      ensures |visibleDates| == visibleDatesCount >= MinCount
    {
      var cell: nat;
      if width >= 1024 {
        cell := 56;
      } else if width >= 640 {
        cell := 48;
      } else {
        cell := 40;
      }
      var available := width - ReservedWidth;
      var fit := available / cell;
      var count: nat := if MinCount > fit then MinCount else fit;
      visibleDatesCount := count;
      visibleDates := Recalculated(visibleDates, count);
    }
  }
}
