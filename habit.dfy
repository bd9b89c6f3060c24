/** The habit record (src/types/habit.ts) and the history accessors every
    analytics helper shares: a history maps local days to numbers, and a day
    missing from it counts as 0. */
module Habits {
  import opened Wrappers
  import opened Sequences
  import opened Civil

  datatype HabitKind = Boolean | Measurable

  /** Completion values by local day. */
  type History = map<Day, real>

  /** A habit. `target`, `unit`, `description`, `frequencyDays` and
      `frequencyTimes` may be absent. `frequencyTimes` is read by the score
      although neither habit type declares it. */
  datatype Habit = Habit(
    id: string,
    name: string,
    description: Option<string>,
    kind: HabitKind,
    target: Option<real>,
    unit: Option<string>,
    history: History,
    frequencyDays: Option<int>,
    frequencyTimes: Option<real>,
    color: string,
    createdAt: string,
    order: int,
    isArchived: bool)

  /** `history[d] || 0`. */
  function Value(h: History, d: Day): real {
    if d in h then h[d] else 0.0
  }

  /** `history[d] > 0`: the day counts as done. */
  predicate Completed(h: History, d: Day) {
    Value(h, d) > 0.0
  }

  /** The days whose value is positive. */
  function CompletedDays(h: History): (s: set<Day>)
    ensures forall d :: d in s <==> Completed(h, d)
  {
    set d | d in h && h[d] > 0.0
  }

  /** Sum of the values of `n` consecutive days starting at `start`. */
  function RangeSum(h: History, start: Day, n: nat): real
    decreases n
  {
    if n == 0 then 0.0 else Value(h, start) + RangeSum(h, start + 1, n - 1)
  }

  /** Sum of the values of a list of days, folded from the front. */
  function SumOver(h: History, days: seq<Day>): real
    decreases |days|
  {
    if days == [] then 0.0 else SumOver(h, days[..|days| - 1]) + Value(h, days[|days| - 1])
  }

  /** A range sum splits at any point. */
  lemma {:induction false} RangeSumSplit(h: History, start: Day, m: nat, n: nat)
    requires m <= n
    ensures RangeSum(h, start, n) == RangeSum(h, start, m) + RangeSum(h, start + m, n - m)
    decreases m
  {
    if m > 0 {
      RangeSumSplit(h, start + 1, m - 1, n - 1);
    }
  }

  /** Range sums only read the days in the range. */
  lemma {:induction false} RangeSumFrame(h: History, g: History, start: Day, n: nat)
    requires forall d :: start <= d < start + n ==> Value(h, d) == Value(g, d)
    ensures RangeSum(h, start, n) == RangeSum(g, start, n)
    decreases n
  {
    if n > 0 {
      RangeSumFrame(h, g, start + 1, n - 1);
    }
  }

  /** A range sum of non-negative values is non-negative. */
  lemma {:induction false} RangeSumNonNegative(h: History, start: Day, n: nat)
    requires forall d :: start <= d < start + n ==> Value(h, d) >= 0.0
    ensures RangeSum(h, start, n) >= 0.0
    decreases n
  {
    if n > 0 {
      RangeSumNonNegative(h, start + 1, n - 1);
    }
  }

  /** A range sum of values at most `c` is at most `n * c`. */
  lemma {:induction false} RangeSumAtMost(h: History, start: Day, n: nat, c: real)
    requires forall d :: start <= d < start + n ==> Value(h, d) <= c
    ensures RangeSum(h, start, n) <= n as real * c
    decreases n
  {
    if n > 0 {
      RangeSumAtMost(h, start + 1, n - 1, c);
    }
  }

  /** A range sum in which every day has value exactly `c` is `n * c`. */
  lemma {:induction false} RangeSumConstant(h: History, start: Day, n: nat, c: real)
    requires forall d :: start <= d < start + n ==> Value(h, d) == c
    ensures RangeSum(h, start, n) == n as real * c
    decreases n
  {
    if n > 0 {
      RangeSumConstant(h, start + 1, n - 1, c);
    }
  }

  /** Raising one day's value never lowers a range sum. */
  lemma {:induction false} RangeSumMonotone(h: History, d: Day, v: real, start: Day, n: nat)
    requires v >= Value(h, d)
    ensures RangeSum(h[d := v], start, n) >= RangeSum(h, start, n)
    decreases n
  {
    if n > 0 {
      RangeSumMonotone(h, d, v, start + 1, n - 1);
    }
  }

  /** Summing the days `last, last - 1, ..., last - n + 1` in that order
      gives the range sum of the same days. */
  lemma {:induction false} SumOverBackwards(h: History, last: Day, n: nat)
    ensures SumOver(h, seq(n, i => last - i)) == RangeSum(h, last - n + 1, n)
    decreases n
  {
    if n > 0 {
      var days := seq(n, i => last - i);
      assert days[..n - 1] == seq(n - 1, i => last - i);
      SumOverBackwards(h, last, n - 1);
      assert RangeSum(h, last - n + 1, n) == Value(h, last - n + 1) + RangeSum(h, last - (n - 1) + 1, n - 1);
    }
  }

  // ----- whole-history sums -----

  /** The smallest element of a finite non-empty set of days. */
  function SetMin(s: set<Day>): (m: Day)
    requires s != {}
    ensures m in s && forall x :: x in s ==> m <= x
  {
    HasMin(s);
    var m :| m in s && forall x :: x in s ==> m <= x;
    m
  }

  lemma HasMin(s: set<Day>)
    requires s != {}
    ensures exists m :: m in s && forall x :: x in s ==> m <= x
  {
    var m := MinOf(s);
  }

  lemma {:induction false} MinOf(s: set<Day>) returns (m: Day)
    requires s != {}
    ensures m in s && forall x :: x in s ==> m <= x
    decreases |s|
  {
    if forall y :: y !in s {
      assert false;
    }
    var y :| y in s;
    if s == {y} {
      m := y;
    } else {
      var rest := s - {y};
      var k := MinOf(rest);
      m := if y < k then y else k;
      forall x | x in s
        ensures m <= x
      {
        if x != y {
          assert x in rest;
        }
      }
    }
  }

  /** The largest element of a finite non-empty set of days. */
  function SetMax(s: set<Day>): (m: Day)
    requires s != {}
    ensures m in s && forall x :: x in s ==> x <= m
  {
    var negated := set x | x in s :: -x;
    assert -SetMin(s) in negated by {
      assert SetMin(s) in s;
    }
    var n := SetMin(negated);
    assert -n in s;
    assert forall x :: x in s ==> -x in negated;
    -n
  }

  /** The days of a finite set in increasing order. */
  function SortedDays(s: set<Day>): (r: seq<Day>)
    ensures |r| == |s|
    ensures forall i :: 0 <= i < |r| ==> r[i] in s
    ensures forall i, j :: 0 <= i < j < |r| ==> r[i] < r[j]
    decreases |s|
  {
    if s == {} then []
    else
      var m := SetMin(s);
      [m] + SortedDays(s - {m})
  }

  /** Every day of the set appears in the sorted list. */
  lemma {:induction false} SortedDaysComplete(s: set<Day>, x: Day)
    requires x in s
    ensures x in SortedDays(s)
    decreases |s|
  {
    var m := SetMin(s);
    if x != m {
      SortedDaysComplete(s - {m}, x);
      assert SortedDays(s) == [m] + SortedDays(s - {m});
    }
  }

  /** The sorted list holds exactly the members of the set. */
  lemma SortedDaysMembers(s: set<Day>, x: Day)
    ensures x in SortedDays(s) <==> x in s
  {
    if x in s {
      SortedDaysComplete(s, x);
    }
  }

  /** Sum of all the values of a history, taken in increasing day order. */
  function SumValues(h: History): real
    decreases |h|
  {
    if h == map[] then 0.0
    else
      var k := SetMin(h.Keys);
      h[k] + SumValues(h - {k})
  }

  /** The sum of all values does not depend on the order the days are
      visited in: any one day can be taken out first. */
  lemma {:induction false} SumValuesRemove(h: History, k: Day)
    requires k in h
    ensures SumValues(h) == h[k] + SumValues(h - {k})
    decreases |h|
  {
    var m := SetMin(h.Keys);
    if m != k {
      var hm := h - {m};
      assert k in hm;
      SumValuesRemove(hm, k);
      var hk := h - {k};
      assert m in hk;
      SumValuesRemove(hk, m);
      assert hm - {k} == hk - {m};
    }
  }

  /** Setting one day's value changes the total by the difference. */
  lemma SumValuesUpdate(h: History, d: Day, v: real)
    ensures SumValues(h[d := v]) == SumValues(h) - Value(h, d) + v
  {
    var g := h[d := v];
    SumValuesRemove(g, d);
    assert g - {d} == h - {d};
    if d in h {
      SumValuesRemove(h, d);
    } else {
      assert h - {d} == h;
    }
  }
}
