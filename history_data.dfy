/** The series the history bar chart draws
    (src/components/Widgets/HistoryWidget/helpers.ts): the period keys from
    the first recorded day through today, the values summed per period, and
    the ticks of the y axis. */
module HistoryData {
  import opened Wrappers
  import opened Civil
  import opened Habits
  import opened PeriodKeys
  import opened Sequences
  import opened HistoryChart
  import StringOrder
  import opened JsMath

  // ----- the keys of the chart -----

  /** The last day the chart spans: the latest recorded day, or today when
      that is later. */
  function LastDay(h: History, today: Day): Day
    requires h != map[]
  {
    var latest := SetMax(h.Keys);
    if latest < today then today else latest
  }

  /** The keys `getAllPeriodKeys` lists: none for an empty history, else the
      keys of the grouping from the earliest recorded day through
      `LastDay`. Weeks are listed as `getWeeklyPeriodKeys` is written, from
      the Monday on or before the earliest day in steps of seven days. */
  function AllPeriodKeys(h: History, g: Grouping, today: Day): seq<string> {
    if h == map[] then []
    else
      var start := SetMin(h.Keys);
      KeysOf(Walk(FirstDate(start, g), LastDay(h, today), g), g)
  }

  /** `getAllPeriodKeys(habit, grouping)`, with today as a parameter. */
  method GetAllPeriodKeys(h: History, g: Grouping, today: Day) returns (keys: seq<string>)
    ensures keys == AllPeriodKeys(h, g, today)
  {
    if |h| == 0 {
      return [];
    }
    var minDate := SetMin(h.Keys);
    var maxDate := SetMax(h.Keys);
    if maxDate < today {
      maxDate := today;
    }
    match g
    case ByWeek => keys := GetWeeklyPeriodKeysAsWritten(minDate, maxDate);
    case ByMonth => keys := GetMonthlyPeriodKeys(minDate, maxDate);
    case ByQuarter => keys := GetQuarterlyPeriodKeys(minDate, maxDate);
    case ByYear => keys := GetYearlyPeriodKeys(minDate, maxDate);
  }

  /** Every day from the earliest recorded day through today, and every
      recorded day, has its period key in the month, quarter and year lists
      when the earliest day is outside the years 0..99. The week list is
      not covered: `WeekChartSkipsFirstWeek` shows a recorded day it misses. */
  lemma AllPeriodKeysCover(h: History, g: Grouping, today: Day, d: Day)
    requires d in h || (h != map[] && SetMin(h.Keys) <= d <= today)
    requires g != ByWeek && !(0 <= Year(SetMin(h.Keys)) <= 99)
    ensures GetPeriodKey(d, g) in AllPeriodKeys(h, g, today)
  {
    var start, end := SetMin(h.Keys), LastDay(h, today);
    assert start <= d <= end;
    GeneratorCovers(start, end, d, g);
  }

  /** The week chart as written: a history whose only record is on a
      Thursday 1 January, charted nine days later, has no bar for that
      record's week, so its value is not charted. */
  lemma WeekChartSkipsFirstWeek(h: History, y: int, jan1: Day, today: Day, v: real)
    requires y >= 101 && jan1 == DaysBeforeYear(y) && Weekday(jan1) == 4 && today == jan1 + 9
    requires h == map[jan1 := v]
    ensures GetPeriodKey(jan1, ByWeek) !in ChartKeys(h, ByWeek, today)
  {
    assert h.Keys == {jan1};
    WeeklyAsWrittenSkipsWeekOne(y, jan1, today);
    MondaysFromThursday(jan1, today);
  }

  /** The keys the week chart has with the corrected weekly list, which
      holds the week of every day from the earliest recorded day on. */
  function CorrectedWeekKeys(h: History, today: Day): seq<string> {
    if h == map[] then [] else WeekKeys(SetMin(h.Keys), LastDay(h, today))
  }

  /** With the corrected weekly list every recorded day, and every day from
      the earliest one through today, has its week among the keys. */
  lemma CorrectedWeekKeysCover(h: History, today: Day, d: Day)
    requires d in h || (h != map[] && SetMin(h.Keys) <= d <= today)
    ensures GetPeriodKey(d, ByWeek) in CorrectedWeekKeys(h, today)
  {
    var start, end := SetMin(h.Keys), LastDay(h, today);
    assert start <= d <= end;
    WeekKeysCover(start, end, d);
  }

  /** From the year 100 on, the month, quarter and year lists hold no key
      twice. */
  lemma AllPeriodKeysDistinct(h: History, g: Grouping, today: Day)
    requires g != ByWeek && (h == map[] || Year(SetMin(h.Keys)) >= 100)
    ensures Distinct(AllPeriodKeys(h, g, today))
  {
    if h != map[] {
      GeneratorKeysDistinct(SetMin(h.Keys), LastDay(h, today), g);
    }
  }

  // ----- the totals per period -----

  /** The period key of a day under a grouping, as a function value; the
      totals below are stated for any such key function. */
  function KeyFn(g: Grouping): Day -> string {
    d => GetPeriodKey(d, g)
  }

  /** The recorded days whose key is `key`. */
  function Bucket(h: History, keyOf: Day -> string, key: string): History {
    map d | d in h && keyOf(d) == key :: h[d]
  }

  /** The completions charted for a key: the sum of the values of the days
      whose key it is. */
  function PeriodTotal(h: History, keyOf: Day -> string, key: string): real {
    SumValues(Bucket(h, keyOf, key))
  }

  /** The keys of the recorded days. */
  function PeriodKeySet(h: History, keyOf: Day -> string): set<string> {
    set d | d in h :: keyOf(d)
  }

  /** `counts[key] || 0`. */
  function Lookup(counts: map<string, real>, key: string): real {
    if key in counts then counts[key] else 0.0
  }

  /** Taking one day out of a history takes its value out of its own
      period's total and changes no other total. */
  lemma PeriodTotalRemove(h: History, d: Day, keyOf: Day -> string, key: string)
    requires d in h
    ensures PeriodTotal(h, keyOf, key) ==
      PeriodTotal(h - {d}, keyOf, key) + (if keyOf(d) == key then h[d] else 0.0)
  {
    var b := Bucket(h, keyOf, key);
    if keyOf(d) == key {
      SumValuesRemove(b, d);
      assert b - {d} == Bucket(h - {d}, keyOf, key);
    } else {
      assert b == Bucket(h - {d}, keyOf, key);
    }
  }

  /** A key no recorded day maps to has total 0. */
  lemma PeriodTotalOutside(h: History, keyOf: Day -> string, key: string)
    requires key !in PeriodKeySet(h, keyOf)
    ensures PeriodTotal(h, keyOf, key) == 0.0
  {
    forall d | d in h
      ensures keyOf(d) != key
    {
      assert keyOf(d) in PeriodKeySet(h, keyOf);
    }
    assert Bucket(h, keyOf, key) == map[];
  }

  /** What the counting loop keeps: `rest` is the part of the history
      still to visit, and `counts` holds, for every key, the total of the
      days visited so far. */
  ghost predicate CountedSoFar(h: History, rest: History, counts: map<string, real>, keyOf: Day -> string) {
    (forall d :: d in rest ==> d in h && rest[d] == h[d]) &&
    counts.Keys <= PeriodKeySet(h, keyOf) &&
    counts.Keys + PeriodKeySet(rest, keyOf) == PeriodKeySet(h, keyOf) &&
    forall key :: Lookup(counts, key) + PeriodTotal(rest, keyOf, key) == PeriodTotal(h, keyOf, key)
  }

  /** Visiting one more day and adding its value to its key keeps the
      counts right. */
  lemma CountStep(h: History, rest: History, counts: map<string, real>, keyOf: Day -> string, d: Day, key: string)
    requires CountedSoFar(h, rest, counts, keyOf) && d in rest && key == keyOf(d)
    ensures CountedSoFar(h, rest - {d}, counts[key := Lookup(counts, key) + rest[d]], keyOf)
  {
    var counts' := counts[key := Lookup(counts, key) + rest[d]];
    assert PeriodKeySet(rest, keyOf) <= PeriodKeySet(rest - {d}, keyOf) + {key};
    forall k
      ensures Lookup(counts', k) + PeriodTotal(rest - {d}, keyOf, k) == PeriodTotal(h, keyOf, k)
    {
      PeriodTotalRemove(rest, d, keyOf, k);
      assert Lookup(counts', k) == Lookup(counts, k) + (if key == k then rest[d] else 0.0);
    }
  }

  /** With nothing left to visit the counts are the totals. */
  lemma CountDone(h: History, counts: map<string, real>, keyOf: Day -> string)
    requires CountedSoFar(h, map[], counts, keyOf)
    ensures counts.Keys == PeriodKeySet(h, keyOf)
    ensures forall key :: Lookup(counts, key) == PeriodTotal(h, keyOf, key)
  {
    assert PeriodKeySet(map[], keyOf) == {};
    forall key
      ensures PeriodTotal(map[], keyOf, key) == 0.0
    {
      PeriodTotalOutside(map[], keyOf, key);
    }
  }

  /** The `counts` dictionary `transformHistoryData` fills: each recorded
      day adds its value to the entry of its period key. The days are
      visited here in increasing order; the totals do not depend on it. */
  method CountByPeriod(h: History, g: Grouping) returns (counts: map<string, real>)
    ensures counts.Keys == PeriodKeySet(h, KeyFn(g))
    ensures forall key :: Lookup(counts, key) == PeriodTotal(h, KeyFn(g), key)
  {
    counts := map[];
    var rest := h;
    while rest.Keys != {}
      invariant CountedSoFar(h, rest, counts, KeyFn(g))
      decreases |rest|
    {
      var d := SetMin(rest.Keys);
      var key := GetPeriodKey(d, g);
      CountStep(h, rest, counts, KeyFn(g), d, key);
      counts := counts[key := Lookup(counts, key) + rest[d]];
      rest := rest - {d};
    }
    assert rest == map[];
    CountDone(h, counts, KeyFn(g));
  }

  // ----- the chart entries -----

  /** One bar of the chart. */
  datatype HistoryEntry = HistoryEntry(period: Label, completions: real, key: string)

  /** The keys the bars follow: the period keys, or, when there are none,
      the keys of `counts` in sorted order. */
  function ChartKeys(h: History, g: Grouping, today: Day): seq<string> {
    var all := AllPeriodKeys(h, g, today);
    if |all| > 0 then all else StringOrder.Sorted(PeriodKeySet(h, KeyFn(g)))
  }

  /** The label of bar `i`: `getWeekLabel` with the previous key for weeks,
      `getPeriodLabel` otherwise. */
  function EntryLabel(keys: seq<string>, i: nat, g: Grouping, startDay: int): Label
    requires i < |keys| && 0 <= startDay < 7
  {
    if g == ByWeek then GetWeekLabel(keys[i], if i > 0 then Some(keys[i - 1]) else None, startDay)
    else GetPeriodLabel(keys[i], g)
  }

  /** `transformHistoryData(habit, grouping, startDayOfWeek)`, with today as
      a parameter: one entry per chart key, in order, carrying the key, its
      label and the total of its period (0 when no recorded day maps to
      it). */
  method TransformHistoryData(h: History, g: Grouping, startDay: int, today: Day)
    returns (entries: seq<HistoryEntry>)
    requires 0 <= startDay < 7
    ensures |entries| == |ChartKeys(h, g, today)|
    ensures forall i :: 0 <= i < |entries| ==>
      var key := ChartKeys(h, g, today)[i];
      entries[i] == HistoryEntry(EntryLabel(ChartKeys(h, g, today), i, g, startDay), PeriodTotal(h, KeyFn(g), key), key)
  {
    var counts := CountByPeriod(h, g);
    var allKeys := GetAllPeriodKeys(h, g, today);
    var sortedKeys := if |allKeys| > 0 then allKeys else StringOrder.Sorted(counts.Keys);
    assert sortedKeys == ChartKeys(h, g, today);
    entries := Entries(sortedKeys, counts, g, startDay);
  }

  /** The entries of the chart: bar `i` carries key `i`, its label and its
      count (0 when missing). */
  function Entries(keys: seq<string>, counts: map<string, real>, g: Grouping, startDay: int): (entries: seq<HistoryEntry>)
    requires 0 <= startDay < 7
    ensures |entries| == |keys|
    ensures forall i :: 0 <= i < |keys| ==>
      entries[i] == HistoryEntry(EntryLabel(keys, i, g, startDay), Lookup(counts, keys[i]), keys[i])
  {
    seq(|keys|, i requires 0 <= i < |keys| => HistoryEntry(EntryLabel(keys, i, g, startDay), Lookup(counts, keys[i]), keys[i]))
  }

  /** Every recorded day's period key is among the chart keys, so no
      recorded value is left out of the month, quarter and year charts when
      the earliest day is outside the years 0..99. */
  lemma ChartKeysCover(h: History, g: Grouping, today: Day, d: Day)
    requires d in h
    requires g != ByWeek && !(0 <= Year(SetMin(h.Keys)) <= 99)
    ensures GetPeriodKey(d, g) in ChartKeys(h, g, today)
  {
    AllPeriodKeysCover(h, g, today, d);
  }

  /** When the period keys are empty the chart falls back on the sorted
      keys of the counts, which then cover every recorded day too. */
  lemma FallbackCovers(h: History, g: Grouping, today: Day, d: Day)
    requires d in h && AllPeriodKeys(h, g, today) == []
    ensures GetPeriodKey(d, g) in ChartKeys(h, g, today)
  {
    assert KeyFn(g)(d) in PeriodKeySet(h, KeyFn(g));
    StringOrder.SortedComplete(PeriodKeySet(h, KeyFn(g)), GetPeriodKey(d, g));
  }

  // ----- every value is charted once -----

  /** The recorded days whose key is not `key`. */
  function OtherBuckets(h: History, keyOf: Day -> string, key: string): History {
    map d | d in h && keyOf(d) != key :: h[d]
  }

  /** The sum of all values splits into one period's total and the rest. */
  lemma {:induction false} SumValuesSplit(h: History, keyOf: Day -> string, key: string)
    ensures SumValues(h) == PeriodTotal(h, keyOf, key) + SumValues(OtherBuckets(h, keyOf, key))
    decreases |h|
  {
    if h == map[] {
      assert Bucket(h, keyOf, key) == map[] && OtherBuckets(h, keyOf, key) == map[];
    } else {
      var d := SetMin(h.Keys);
      var rest := h - {d};
      SumValuesSplit(rest, keyOf, key);
      PeriodTotalRemove(h, d, keyOf, key);
      SumValuesRemove(h, d);
      var others := OtherBuckets(h, keyOf, key);
      if keyOf(d) == key {
        assert others == OtherBuckets(rest, keyOf, key);
      } else {
        SumValuesRemove(others, d);
        assert others - {d} == OtherBuckets(rest, keyOf, key);
      }
    }
  }

  /** The totals of a list of keys, added up. */
  function SumOfTotals(h: History, keyOf: Day -> string, keys: seq<string>): real
    decreases |keys|
  {
    if keys == [] then 0.0 else PeriodTotal(h, keyOf, keys[0]) + SumOfTotals(h, keyOf, keys[1..])
  }

  /** Totals of keys other than `key` do not see the days of `key`. */
  lemma {:induction false} SumOfTotalsOthers(h: History, keyOf: Day -> string, key: string, keys: seq<string>)
    requires key !in keys
    ensures SumOfTotals(h, keyOf, keys) == SumOfTotals(OtherBuckets(h, keyOf, key), keyOf, keys)
    decreases |keys|
  {
    if keys != [] {
      assert Bucket(h, keyOf, keys[0]) == Bucket(OtherBuckets(h, keyOf, key), keyOf, keys[0]);
      assert key !in keys[1..];
      SumOfTotalsOthers(h, keyOf, key, keys[1..]);
    }
  }

  /** Over keys that repeat nothing and cover every recorded day, the totals
      add up to the sum of all values: no value is lost or counted twice. */
  lemma {:induction false} TotalsAddUp(h: History, keyOf: Day -> string, keys: seq<string>)
    requires Distinct(keys)
    requires forall d :: d in h ==> keyOf(d) in keys
    ensures SumOfTotals(h, keyOf, keys) == SumValues(h)
    decreases |keys|
  {
    if keys == [] {
      assert h == map[];
    } else {
      var key, rest := keys[0], keys[1..];
      var others := OtherBuckets(h, keyOf, key);
      DistinctCons(key, rest);
      assert keys == [key] + rest;
      forall d | d in others
        ensures keyOf(d) in rest
      {
        assert keyOf(d) in keys;
      }
      TotalsAddUp(others, keyOf, rest);
      SumOfTotalsOthers(h, keyOf, key, rest);
      SumValuesSplit(h, keyOf, key);
    }
  }

  /** The month, quarter and year charts of a history from the year 100 on
      account for every recorded value exactly once. */
  lemma ChartAccountsForAll(h: History, g: Grouping, today: Day)
    requires g != ByWeek && (h == map[] || Year(SetMin(h.Keys)) >= 100)
    ensures SumOfTotals(h, KeyFn(g), ChartKeys(h, g, today)) == SumValues(h)
  {
    var keys := ChartKeys(h, g, today);
    if h == map[] {
      assert PeriodKeySet(h, KeyFn(g)) == {};
      assert keys == [];
    } else {
      var all := AllPeriodKeys(h, g, today);
      AllPeriodKeysCover(h, g, today, SetMin(h.Keys));
      assert keys == all;
      AllPeriodKeysDistinct(h, g, today);
      forall d | d in h
        ensures KeyFn(g)(d) in keys
      {
        ChartKeysCover(h, g, today, d);
      }
      TotalsAddUp(h, KeyFn(g), keys);
    }
  }

  // ----- the y axis -----

  /** `data.reduce((max, d) => Math.max(max, d.completions), 0)`. */
  function MaxCompletions(data: seq<HistoryEntry>): (m: real)
    ensures m >= 0.0
    ensures forall i :: 0 <= i < |data| ==> data[i].completions <= m
    ensures m == 0.0 || exists i :: 0 <= i < |data| && data[i].completions == m
    decreases |data|
  {
    if data == [] then 0.0
    else
      var m := MaxCompletions(data[..|data| - 1]);
      var c := data[|data| - 1].completions;
      if m < c then c else m
  }

  lemma ScaleMonotone(c: real, x: real, y: real)
    requires c >= 0.0 && x <= y
    ensures c * x <= c * y
  {
  }

  /** The tick values for a largest total `max`: with t the smaller of
      `max` and 5, the ⌊t⌋ + 1 values round(max / t × (t − i)). */
  function AxisTicks(max: real): seq<int>
    requires max > 0.0
  {
    var ticks := if max <= 5.0 then max else 5.0;
    seq(ticks.Floor + 1, i requires 0 <= i <= ticks.Floor => Tick(max, ticks, i))
  }

  /** Tick `i` of `ticks` for a largest total `max`. */
  function Tick(max: real, ticks: real, i: int): int
    requires ticks > 0.0
  {
    Round(max / ticks * (ticks - i as real))
  }

  /** A later tick is not above an earlier one. */
  lemma TickMonotone(max: real, ticks: real, i: int, j: int)
    requires max >= 0.0 && ticks > 0.0 && i <= j
    ensures Tick(max, ticks, j) <= Tick(max, ticks, i)
  {
    var c := max / ticks;
    ScaleMonotone(c, ticks - j as real, ticks - i as real);
    RoundMonotone(c * (ticks - j as real), c * (ticks - i as real));
  }

  /** `calculateYAxisLabels(data)`. An all-zero chart divides 0 by 0 and is
      not modelled. */
  function YAxisLabels(data: seq<HistoryEntry>): seq<int>
    requires MaxCompletions(data) > 0.0
  {
    AxisTicks(MaxCompletions(data))
  }

  /** The first tick is the largest total, rounded. */
  lemma FirstTick(max: real, ticks: real)
    requires ticks > 0.0
    ensures Tick(max, ticks, 0) == Round(max)
  {
    assert max / ticks * (ticks - 0 as real) == max;
  }

  /** No tick up to `ticks` is negative. */
  lemma TickNonNegative(max: real, ticks: real, i: int)
    requires max >= 0.0 && ticks > 0.0 && i as real <= ticks
    ensures Tick(max, ticks, i) >= 0
  {
    ScaleMonotone(max / ticks, 0.0, ticks - i as real);
    RoundMonotone(0.0, max / ticks * (ticks - i as real));
  }

  /** The ticks run downwards from the largest total, rounded, to a
      non-negative last tick. */
  lemma YAxisDescends(max: real)
    requires max > 0.0
    ensures var r := AxisTicks(max);
      |r| >= 1 && r[0] == Round(max) && r[|r| - 1] >= 0 &&
      forall i, j :: 0 <= i < j < |r| ==> r[i] >= r[j]
  {
    var ticks := if max <= 5.0 then max else 5.0;
    var r := AxisTicks(max);
    FloorBounds(ticks);
    FirstTick(max, ticks);
    TickNonNegative(max, ticks, ticks.Floor);
    forall i, j | 0 <= i < j < |r|
      ensures r[i] >= r[j]
    {
      TickMonotone(max, ticks, i, j);
    }
  }

  /** From a largest total of 5 on there are six ticks and the last is 0. */
  lemma YAxisSixTicks(max: real)
    requires max >= 5.0
    ensures var r := AxisTicks(max);
      |r| == 6 && r[5] == 0
  {
    assert (5.0).Floor == 5;
    assert AxisTicks(max)[5] == Tick(max, 5.0, 5);
  }

  /** A whole largest total n of at most 5 gives n, n − 1, …, 0. */
  lemma YAxisWholeSmall(n: nat)
    requires 1 <= n <= 5
    ensures var r := AxisTicks(n as real);
      |r| == n + 1 && forall i :: 0 <= i <= n ==> r[i] == n - i
  {
    var x := n as real;
    assert x.Floor == n;
    var r := AxisTicks(x);
    forall i | 0 <= i <= n
      ensures r[i] == n - i
    {
      assert r[i] == Tick(x, x, i);
      assert x / x * (x - i as real) == (n - i) as real;
      assert ((n - i) as real + 0.5).Floor == n - i;
    }
  }
}
