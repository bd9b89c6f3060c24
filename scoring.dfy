/** The habit score `calculateHabitScore` (src/lib/scoring.ts): performance
    over the last `frequencyDays || 7` days as a percentage of what the habit
    asks for, capped at 100. */
module Scoring {
  import opened Wrappers
  import opened Civil
  import opened Habits
  import opened Dates

  function Min(a: real, b: real): real {
    if a <= b then a else b
  }

  /** `frequencyDays || 7`: an absent or zero count falls back to a week; a
      negative one is kept. */
  function FallbackDays(h: Habit): (n: int)
    ensures n != 0
  {
    match h.frequencyDays
    case Some(fd) => if fd != 0 then fd else 7
    case None => 7
  }

  /** The length of the list of relevant dates built from
      `frequencyDays || 7`: a negative length gives an empty list. */
  function ScoreWindow(h: Habit): (n: nat)
    ensures n == 0 <==> h.frequencyDays.Some? && h.frequencyDays.value < 0
    ensures h.frequencyDays.Some? && h.frequencyDays.value > 0 ==> n == h.frequencyDays.value
    ensures h.frequencyDays.None? || h.frequencyDays == Some(0) ==> n == 7
  {
    var n := FallbackDays(h);
    if n < 0 then 0 else n
  }

  /** The relevant days, newest first, summed in that order. */
  function Performance(h: Habit, today: Day): real {
    SumOver(h.history, DaysInRange(today, ScoreWindow(h), false))
  }

  /** The denominator of a boolean habit: `frequencyTimes || windowLength`. */
  function TargetTimes(h: Habit): (t: real)
    ensures t == 0.0 <==> ScoreWindow(h) == 0 && (h.frequencyTimes.None? || h.frequencyTimes == Some(0.0))
  {
    match h.frequencyTimes
    case Some(ft) => if ft != 0.0 then ft else ScoreWindow(h) as real
    case None => ScoreWindow(h) as real
  }

  /** A yes/no habit with a negative `frequencyDays` and no `frequencyTimes`
      divides an empty sum by an empty window: `0 / 0`, not a number. */
  predicate ScoreIsNaN(h: Habit) {
    h.kind == Boolean && h.frequencyDays.Some? && h.frequencyDays.value < 0 &&
    (h.frequencyTimes.None? || h.frequencyTimes == Some(0.0))
  }

  /** `Math.min(part / whole * 100, 100)`. */
  function Percent(part: real, whole: real): real
    requires whole != 0.0
  {
    Min(part / whole * 100.0, 100.0)
  }

  /** `target * (frequencyDays || 7)`, the measurable denominator. */
  function TotalTarget(h: Habit): (t: real)
    requires h.target.Some?
    ensures h.target.value != 0.0 ==> t != 0.0
  {
    h.target.value * FallbackDays(h) as real
  }

  /** The score of a habit whose window sums to `performance`; None is
      NaN. A zero yes/no denominator comes only with an empty window, whose
      sum is 0, so the quotient is `0 / 0`. */
  function ScoreOf(h: Habit, performance: real): (score: Option<real>)
    ensures score.None? <==> ScoreIsNaN(h)
    ensures score.Some? ==> score.value <= 100.0
    ensures h.kind == Measurable && (h.target.None? || h.target == Some(0.0)) ==> score == Some(0.0)
  {
    match h.kind
    case Boolean =>
      var targetTimes := TargetTimes(h);
      if targetTimes == 0.0 then None
      else Some(Percent(performance, targetTimes))
    case Measurable =>
      if h.target.Some? && h.target.value != 0.0 then Some(Percent(performance, TotalTarget(h)))
      else Some(0.0)
  }

  /** `calculateHabitScore(habit)` with today passed in; None is NaN. */
  function CalculateHabitScore(h: Habit, today: Day): (score: Option<real>)
    ensures score.None? <==> ScoreIsNaN(h)
    ensures score.Some? ==> score.value <= 100.0
    ensures h.kind == Measurable && (h.target.None? || h.target == Some(0.0)) ==> score == Some(0.0)
  {
    ScoreOf(h, Performance(h, today))
  }

  /** The performance is the sum of the window of `ScoreWindow(h)` days that
      ends today, the same window the cadence check sums. */
  lemma PerformanceIsWindowSum(h: Habit, today: Day)
    ensures Performance(h, today) == RangeSum(h.history, today - ScoreWindow(h) + 1, ScoreWindow(h))
  {
    var n := ScoreWindow(h);
    assert DaysInRange(today, n, false) == seq(n, i => today - i);
    SumOverBackwards(h.history, today, n);
  }

  /** With non-negative values and a positive denominator the score is at
      least 0. */
  lemma ScoreNonNegative(h: Habit, today: Day)
    requires forall d :: d in h.history ==> h.history[d] >= 0.0
    requires h.kind == Boolean ==> TargetTimes(h) > 0.0
    requires h.kind == Measurable && h.target.Some? ==> h.target.value >= 0.0
    ensures CalculateHabitScore(h, today).Some? && CalculateHabitScore(h, today).value >= 0.0
  {
    var n := ScoreWindow(h);
    var p := Performance(h, today);
    PerformanceIsWindowSum(h, today);
    RangeSumNonNegative(h.history, today - n + 1, n);
    if n == 0 {
      EmptyWindowPerformance(h, today);
    }
    ScoreOfNonNegative(h, p);
  }

  /** The score of a non-negative sum is at least 0, given a positive
      denominator, or a negative multiplier with an empty window. */
  lemma ScoreOfNonNegative(h: Habit, p: real)
    requires p >= 0.0 && (FallbackDays(h) < 0 ==> p == 0.0)
    requires h.kind == Boolean ==> TargetTimes(h) > 0.0
    requires h.kind == Measurable && h.target.Some? ==> h.target.value >= 0.0
    ensures ScoreOf(h, p).Some? && ScoreOf(h, p).value >= 0.0
  {
    match h.kind
    case Boolean =>
      QuotientNonNegative(p, TargetTimes(h));
    case Measurable =>
      if h.target.Some? && h.target.value != 0.0 {
        var q := TotalTarget(h);
        MeasurableScoreOf(h, p);
        if FallbackDays(h) > 0 {
          PositiveProduct(h.target.value, FallbackDays(h));
          QuotientNonNegative(p, q);
        } else {
          ZeroQuotient(q);
        }
      }
  }

  lemma QuotientNonNegative(p: real, q: real)
    requires p >= 0.0 && q > 0.0
    ensures Percent(p, q) >= 0.0
  {
    var r := p / q;
    assert r * q == p;
  }

  lemma ZeroQuotient(q: real)
    requires q != 0.0
    ensures Percent(0.0, q) == 0.0
  {
  }

  /** An empty window sums to 0. */
  lemma EmptyWindowPerformance(h: Habit, today: Day)
    requires ScoreWindow(h) == 0
    ensures Performance(h, today) == 0.0
  {
    PerformanceIsWindowSum(h, today);
  }

  /** A zero sum scores 0, or NaN in the `0 / 0` case. */
  lemma ZeroPerformanceScoresZero(h: Habit)
    ensures ScoreOf(h, 0.0) == if ScoreIsNaN(h) then None else Some(0.0)
  {
    match h.kind
    case Boolean =>
      if TargetTimes(h) != 0.0 {
        ZeroQuotient(TargetTimes(h));
      }
    case Measurable =>
      if h.target.Some? && h.target.value != 0.0 {
        ZeroQuotient(TotalTarget(h));
      }
  }

  /** A negative `frequencyDays` empties the window: the score is 0, unless
      a yes/no habit also has no `frequencyTimes` (NaN). */
  lemma NegativeWindowScoresZero(h: Habit, today: Day)
    requires h.frequencyDays.Some? && h.frequencyDays.value < 0
    ensures CalculateHabitScore(h, today) == if ScoreIsNaN(h) then None else Some(0.0)
  {
    EmptyWindowPerformance(h, today);
    ZeroPerformanceScoresZero(h);
  }

  /** An empty history scores 0 (NaN in the `0 / 0` case). */
  lemma EmptyHistoryScoresZero(h: Habit, today: Day)
    requires h.history == map[]
    ensures CalculateHabitScore(h, today) == if ScoreIsNaN(h) then None else Some(0.0)
  {
    var n := ScoreWindow(h);
    PerformanceIsWindowSum(h, today);
    RangeSumConstant(h.history, today - n + 1, n, 0.0);
    ZeroPerformanceScoresZero(h);
  }

  /** A boolean habit with no window and no `frequencyTimes` that was done
      on each of the last seven days scores 100. */
  lemma PerfectWeekScores100(h: Habit, today: Day)
    requires h.kind == Boolean && h.frequencyDays.None? && h.frequencyTimes.None?
    requires forall d :: today - 7 < d <= today ==> Value(h.history, d) == 1.0
    ensures CalculateHabitScore(h, today) == Some(100.0)
  {
    assert ScoreWindow(h) == 7 && TargetTimes(h) == 7.0;
    PerformanceIsWindowSum(h, today);
    RangeSumConstant(h.history, today - 6, 7, 1.0);
    CappedAt100(Performance(h, today), 7.0);
  }

  /** A measurable habit meeting its positive daily target on every day of
      a non-empty window scores 100. */
  lemma MeasurableAtTargetScores100(h: Habit, today: Day)
    requires h.kind == Measurable && h.target.Some? && h.target.value > 0.0
    requires ScoreWindow(h) > 0
    requires forall d :: today - ScoreWindow(h) < d <= today ==> Value(h.history, d) >= h.target.value
    ensures CalculateHabitScore(h, today) == Some(100.0)
  {
    var n := ScoreWindow(h);
    var t := h.target.value;
    WindowAtLeast(h, today, t, n);
    assert FallbackDays(h) == n;
    PositiveProduct(t, n);
    var p := Performance(h, today);
    MeasurableScoreOf(h, p);
    assert TotalTarget(h) == t * n as real;
    CappedAt100(p, TotalTarget(h));
  }

  /** A window whose every day holds at least `c` sums to at least `n × c`. */
  lemma WindowAtLeast(h: Habit, today: Day, c: real, n: nat)
    requires n == ScoreWindow(h)
    requires forall d :: today - n < d <= today ==> Value(h.history, d) >= c
    ensures Performance(h, today) >= n as real * c
  {
    PerformanceIsWindowSum(h, today);
    RangeSumAtLeast(h.history, today - n + 1, n, c);
  }

  lemma MeasurableScoreOf(h: Habit, p: real)
    requires h.kind == Measurable && h.target.Some? && h.target.value != 0.0
    ensures ScoreOf(h, p) == Some(Percent(p, TotalTarget(h)))
  {
  }

  lemma PositiveProduct(t: real, n: nat)
    requires t > 0.0 && n > 0
    ensures t * n as real > 0.0 && n as real * t == t * n as real
  {
    assert n as real >= 1.0;
  }

  lemma CappedAt100(p: real, q: real)
    requires q > 0.0 && p >= q
    ensures Percent(p, q) == 100.0
  {
    DivAtLeastOne(p, q);
    var r := p / q;
    assert r * 100.0 >= 100.0;
  }

  lemma DivAtLeastOne(p: real, q: real)
    requires q > 0.0 && p >= q
    ensures p / q >= 1.0
  {
    var r := p / q;
    assert r * q == p;
    assert (r - 1.0) * q == p - q;
  }

  lemma {:induction false} RangeSumAtLeast(h: History, start: Day, n: nat, c: real)
    requires forall d :: start <= d < start + n ==> Value(h, d) >= c
    ensures RangeSum(h, start, n) >= n as real * c
    decreases n
  {
    if n > 0 {
      RangeSumAtLeast(h, start + 1, n - 1, c);
    }
  }
}
