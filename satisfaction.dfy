/** The cadence check `isHabitSatisfiedOnDate` (src/lib/habitSatisfaction.ts):
    the values of the `frequencyDays` days ending on a date are summed and
    compared with the habit's target. */
module Satisfaction {
  import opened Wrappers
  import opened Civil
  import opened Habits
  import opened Dates

  /** The number of days the loop over `habit.frequencyDays ?? 1` visits:
      a negative count visits none. */
  function WindowDays(h: Habit): (n: nat)
    ensures h.frequencyDays.GetOr(1) >= 0 ==> n == h.frequencyDays.GetOr(1)
    ensures h.frequencyDays.GetOr(1) < 0 ==> n == 0
  {
    var freqDays := h.frequencyDays.GetOr(1);
    if freqDays < 0 then 0 else freqDays
  }

  /** `habit.target ?? 1`. */
  function TargetOrOne(h: Habit): real {
    h.target.GetOr(1.0)
  }

  /** The cadence contract on day `d`: the window of `WindowDays(h)` days
      ending on `d` (inclusive) holds at least the target. */
  predicate SatisfiedOn(h: Habit, d: Day) {
    RangeSum(h.history, d - WindowDays(h) + 1, WindowDays(h)) >= TargetOrOne(h)
  }

  /** `isHabitSatisfiedOnDate(habit, date)`. The window is walked forwards
      from its first day. An unparsable date makes the first key lookup throw
      (None); with an empty window (a `frequencyDays` of 0 or below) nothing
      is looked up and the sum 0 is compared with the target. */
  method IsHabitSatisfiedOnDate(h: Habit, date: string) returns (r: Option<bool>)
    ensures r.None? <==> ParseDateStringLocal(date).None? && WindowDays(h) > 0
    ensures ParseDateStringLocal(date).Some? ==> r == Some(SatisfiedOn(h, ParseDateStringLocal(date).value))
    ensures ParseDateStringLocal(date).None? && WindowDays(h) == 0 ==> r == Some(TargetOrOne(h) <= 0.0)
  {
    var freqDays := WindowDays(h);
    var target := TargetOrOne(h);
    var current := ParseDateStringLocal(date);
    if current.None? {
      if freqDays > 0 {
        return None;
      }
      return Some(0.0 >= target);
    }
    var sum := SumWindow(h.history, current.value - freqDays + 1, freqDays);
    return Some(sum >= target);
  }

  /** The loop of `isHabitSatisfiedOnDate`: adds up the values of `n` days
      from `windowStart` on, looking each day's key up in the history. */
  method SumWindow(history: History, windowStart: Day, n: nat) returns (sum: real)
    ensures sum == RangeSum(history, windowStart, n)
  {
    sum := 0.0;
    var i := 0;
    while i < n
      invariant 0 <= i <= n
      invariant sum + RangeSum(history, windowStart + i, n - i) == RangeSum(history, windowStart, n)
    {
      sum := sum + Value(history, windowStart + i);
      i := i + 1;
    }
  }

  /** A daily habit with target 1 (both possibly defaulted) is satisfied on a
      day exactly when that day's value is at least 1. */
  lemma DailySatisfied(h: Habit, d: Day)
    requires h.frequencyDays == None || h.frequencyDays == Some(1)
    requires h.target == None || h.target == Some(1.0)
    ensures SatisfiedOn(h, d) <==> Value(h.history, d) >= 1.0
  {
  }

  /** Only the days inside the window matter: two habits with the same
      cadence whose histories agree on the window give the same answer. */
  lemma SatisfiedFrame(h: Habit, g: Habit, d: Day)
    requires h.frequencyDays == g.frequencyDays && h.target == g.target
    requires forall e :: d - WindowDays(h) < e <= d ==> Value(h.history, e) == Value(g.history, e)
    ensures SatisfiedOn(h, d) <==> SatisfiedOn(g, d)
  {
    RangeSumFrame(h.history, g.history, d - WindowDays(h) + 1, WindowDays(h));
  }

  /** Recording a larger value on any day never breaks satisfaction. */
  lemma SatisfiedMonotone(h: Habit, e: Day, v: real, d: Day)
    requires v >= Value(h.history, e)
    requires SatisfiedOn(h, d)
    ensures SatisfiedOn(h.(history := h.history[e := v]), d)
  {
    RangeSumMonotone(h.history, e, v, d - WindowDays(h) + 1, WindowDays(h));
  }

  /** With no history at all a positive target is never met. */
  lemma EmptyHistoryUnsatisfied(h: Habit, d: Day)
    requires h.history == map[]
    requires TargetOrOne(h) > 0.0
    ensures !SatisfiedOn(h, d)
  {
    RangeSumConstant(h.history, d - WindowDays(h) + 1, WindowDays(h), 0.0);
  }

  /** A `frequencyDays` of 0 or below leaves the window empty: the sum 0
      is compared with the target, whatever the history holds. */
  lemma EmptyWindowComparesZero(h: Habit, d: Day)
    requires h.frequencyDays.Some? && h.frequencyDays.value <= 0
    ensures SatisfiedOn(h, d) <==> TargetOrOne(h) <= 0.0
  {
    assert WindowDays(h) == 0;
  }

  /** A window whose every day holds 1 sums to the window length, so it
      meets a target of `WindowDays(h)` and misses any larger one. */
  lemma FullWindow(h: Habit, d: Day)
    requires forall e :: d - WindowDays(h) < e <= d ==> Value(h.history, e) == 1.0
    ensures SatisfiedOn(h, d) <==> TargetOrOne(h) <= WindowDays(h) as real
  {
    RangeSumConstant(h.history, d - WindowDays(h) + 1, WindowDays(h), 1.0);
  }
}
