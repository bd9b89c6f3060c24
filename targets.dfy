/** The fixed-period progress behind the targets widget
    (src/components/widgets/TargetsWidget/helpers.ts): the current week,
    month, quarter or year as a range of days, the history summed over that
    range, and the habit's target pro-rated to its length. */
module Targets {
  import opened Wrappers
  import opened Civil
  import opened Habits
  import opened JsMath

  datatype PeriodType = Week | Month | Quarter | Year

  /** The first and the last day of a period, both included. */
  datatype Range = Range(start: Day, end: Day)

  /** The number of days from `start` to `end`, both included. */
  function Length(r: Range): nat {
    if r.end < r.start then 0 else r.end - r.start + 1
  }

  /** `getPeriodRange(period, startDayOfWeek)` on the local day `now`. The
      week starts `(getDay() - startDayOfWeek + 7) % 7` days before today
      and ends six days after its start; the other periods run from the
      1st of their first month to day 0 of the month after their last. */
  function GetPeriodRange(period: PeriodType, startDay: int, now: Day): Range {
    match period
      case Week => WeekOf(startDay, now)
      case Month => MonthOf(Civil.Year(now), Month0(now))
      case Quarter => QuarterOf(Civil.Year(now), Month0(now))
      case Year => YearOf(Civil.Year(now))
  }

  /** The week branch: back to the last `startDay`, then six days on. */
  function WeekOf(startDay: int, now: Day): Range {
    var diff := JsRem(Weekday(now) - startDay + 7, 7);
    Range(now - diff, now - diff + 6)
  }

  /** The month branch, for month `m` (0-based) of year `y`. */
  function MonthOf(y: int, m: int): Range {
    Range(MakeLocalDate(y, m, 1), MakeLocalDate(y, m + 1, 0))
  }

  /** The quarter of month index `a`: months `3q .. 3q + 2` form quarter
      `q`. */
  function QuarterIndex(a: int): int {
    a / 3
  }

  /** The quarter branch: its first month is `3⌊m/3⌋`. */
  function QuarterOf(y: int, m: int): Range {
    var first := (m / 3) * 3;
    Range(MakeLocalDate(y, first, 1), MakeLocalDate(y, first + 3, 0))
  }

  /** The year branch: January 1 to day 0 of the thirteenth month. */
  function YearOf(y: int): Range {
    Range(MakeLocalDate(y, 0, 1), MakeLocalDate(y, 12, 0))
  }

  /** The week is the seven days from the last day on the chosen first day
      of the week up to today. */
  lemma WeekRange(now: Day, startDay: int)
    requires 0 <= startDay < 7
    ensures var r := GetPeriodRange(Week, startDay, now);
      r.start <= now <= r.end && r.end == r.start + 6 && Length(r) == 7 &&
      Weekday(r.start) == startDay && now - r.start < 7
  {
    var w := Weekday(now);
    var diff := JsRem(w - startDay + 7, 7);
    assert diff == if w - startDay >= 0 then w - startDay else w - startDay + 7;
    WeekdayShift(now - diff, diff);
    assert now - diff + diff == now;
  }

  /** The days from the first of month `lo` up to the day before the first
      of month `hi` are the days whose month lies in `lo .. hi - 1`. */
  lemma MonthSpan(lo: int, hi: int, d: Day)
    ensures MonthStart(lo) <= d <= MonthStart(hi) - 1 <==> lo <= MonthIndex(d) < hi
  {
    MonthStartBefore(lo, d);
    MonthStartBefore(hi, d);
  }

  /** `new Date(y, k, 1)` and `new Date(y, k, 0)` from the year 100 on: the
      first of month `a` = 12y + k and the last day of the month before. */
  lemma MonthBoundaries(y: int, k: int, a: int)
    requires !(0 <= y <= 99) && a == 12 * y + k
    ensures MakeLocalDate(y, k, 1) == MonthStart(a)
    ensures MakeLocalDate(y, k, 0) == MonthStart(a) - 1
  {
  }

  /** The month branch on month `a` = 12y + m, from the year 100 on: the
      first of the month to the day before the next month's first. */
  lemma MonthShape(y: int, m: int, a: int)
    requires y >= 100 && a == 12 * y + m
    ensures MonthOf(y, m) == Range(MonthStart(a), MonthStart(a + 1) - 1)
  {
    MonthBoundaries(y, m, a);
    MonthBoundaries(y, m + 1, a + 1);
  }

  /** The month runs from the first of today's month `a` to the day before
      the first of the next. */
  lemma MonthRange(now: Day, startDay: int, a: int)
    requires a == MonthIndex(now) && Civil.Year(now) >= 100
    ensures GetPeriodRange(Month, startDay, now) == Range(MonthStart(a), MonthStart(a + 1) - 1)
  {
    MonthShape(Civil.Year(now), Month0(now), a);
  }

  /** A day is in the month range exactly when it is in today's month. */
  lemma InMonthRange(now: Day, startDay: int, d: Day)
    requires Civil.Year(now) >= 100
    ensures var r := GetPeriodRange(Month, startDay, now);
      r.start <= d <= r.end <==> MonthIndex(d) == MonthIndex(now)
  {
    var a := MonthIndex(now);
    MonthRange(now, startDay, a);
    MonthSpan(a, a + 1, d);
  }

  /** The quarter branch on month `12y + m`, from the year 100 on: its
      first month is `q` = 12y + 3⌊m/3⌋, its last the one before `q + 3`. */
  lemma QuarterShape(y: int, m: int, f: int, q: int)
    requires y >= 100 && f == (m / 3) * 3 && q == 12 * y + f
    ensures QuarterOf(y, m) == Range(MonthStart(q), MonthStart(q + 3) - 1)
  {
    MonthBoundaries(y, f, q);
    MonthBoundaries(y, f + 3, q + 3);
  }

  /** The first month of the quarter of month index `a` = 12y + m. */
  lemma QuarterStart(y: int, m: int, a: int)
    requires 0 <= m < 12 && a == 12 * y + m
    ensures 12 * y + m / 3 * 3 == 3 * QuarterIndex(a)
  {
  }

  /** The quarter is the three months `3q .. 3q + 2` holding today's month
      `a`. */
  lemma QuarterRange(now: Day, startDay: int, a: int, q: int)
    requires a == MonthIndex(now) && Civil.Year(now) >= 100 && q == 3 * QuarterIndex(a)
    ensures GetPeriodRange(Quarter, startDay, now) == Range(MonthStart(q), MonthStart(q + 3) - 1)
  {
    QuarterStart(Civil.Year(now), Month0(now), a);
    QuarterShape(Civil.Year(now), Month0(now), (Month0(now) / 3) * 3, q);
  }

  /** The three months from `3⌊a/3⌋` are those in the quarter of month `a`. */
  lemma QuarterSpan(a: int, x: int, q: int)
    requires q == 3 * QuarterIndex(a)
    ensures q <= x < q + 3 <==> QuarterIndex(x) == QuarterIndex(a)
  {
  }

  /** A day is in the quarter range exactly when its month is in today's
      quarter. */
  lemma InQuarterRange(now: Day, startDay: int, d: Day, a: int, x: int)
    requires Civil.Year(now) >= 100 && a == MonthIndex(now) && x == MonthIndex(d)
    ensures var r := GetPeriodRange(Quarter, startDay, now);
      r.start <= d <= r.end <==> QuarterIndex(x) == QuarterIndex(a)
  {
    var q := 3 * QuarterIndex(a);
    QuarterRange(now, startDay, a, q);
    QuarterMembers(GetPeriodRange(Quarter, startDay, now), a, q, d, x);
  }

  /** Membership in the three months of the quarter of month `a`. */
  lemma QuarterMembers(r: Range, a: int, q: int, d: Day, x: int)
    requires q == 3 * QuarterIndex(a) && r == Range(MonthStart(q), MonthStart(q + 3) - 1)
    requires x == MonthIndex(d)
    ensures r.start <= d <= r.end <==> QuarterIndex(x) == QuarterIndex(a)
  {
    MonthSpan(q, q + 3, d);
    QuarterSpan(a, x, q);
  }

  /** The year branch, from the year 100 on: the first of month `12y` to
      the day before the first of month `12y + 12`. */
  lemma YearShape(y: int, a: int)
    requires y >= 100 && a == 12 * y
    ensures YearOf(y) == Range(MonthStart(a), MonthStart(a + 12) - 1)
  {
    MonthBoundaries(y, 0, a);
    MonthBoundaries(y, 12, a + 12);
  }

  /** A day's month lies in the twelve months of year `y` exactly when the
      day is in year `y`. */
  lemma MonthsOfYear(y: int, d: Day, a: int)
    requires a == MonthIndex(d)
    ensures 12 * y <= a < 12 * y + 12 <==> Civil.Year(d) == y
  {
    MonthIndexParts(d);
  }

  /** The year runs from January 1 of today's year `y` to December 31. */
  lemma YearRange(now: Day, startDay: int, y: int)
    requires y == Civil.Year(now) && y >= 100
    ensures GetPeriodRange(Year, startDay, now) == Range(MonthStart(12 * y), MonthStart(12 * y + 12) - 1)
  {
    YearShape(y, 12 * y);
  }

  /** A day is in the year range exactly when it is in today's year. */
  lemma InYearRange(now: Day, startDay: int, d: Day)
    requires Civil.Year(now) >= 100
    ensures var r := GetPeriodRange(Year, startDay, now);
      r.start <= d <= r.end <==> Civil.Year(d) == Civil.Year(now)
  {
    var y := Civil.Year(now);
    YearRange(now, startDay, y);
    MonthSpan(12 * y, 12 * y + 12, d);
    MonthsOfYear(y, d, MonthIndex(d));
  }

  /** Today lies in the range of every period (from the year 100 on). */
  lemma TodayInRange(period: PeriodType, startDay: int, now: Day)
    requires 0 <= startDay < 7 && Civil.Year(now) >= 100
    ensures GetPeriodRange(period, startDay, now).start <= now <= GetPeriodRange(period, startDay, now).end
  {
    match period
      case Week => WeekRange(now, startDay);
      case Month => InMonthRange(now, startDay, now);
      case Quarter => InQuarterRange(now, startDay, now, MonthIndex(now), MonthIndex(now));
      case Year => InYearRange(now, startDay, now);
  }

  // ----- progress -----

  /** A JavaScript number after `Math.round`: a whole number, an infinity,
      or NaN. */
  datatype Rounded = Whole(n: int) | PlusInfinity | MinusInfinity | NaN

  /** The value done in the period and the target for it. */
  datatype Progress = Progress(value: real, target: Rounded)

  /** `target / frequency × days`: a target of `t` per `freq` days spread
      over `days` days. */
  function ProRated(t: real, freq: int, days: nat): real
    requires freq != 0
  {
    t / freq as real * days as real
  }

  /** The target for a period of `days` days:
      `round(target / (frequencyDays ?? 1) × days)`, first capped at `days`
      for a yes/no habit. A missing target is NaN. A `frequencyDays` of 0
      divides by zero: a positive target becomes +Infinity, a negative one
      -Infinity and 0 NaN; an infinity times 0 days is NaN, and the cap
      turns +Infinity into `days`. */
  function ProgressTarget(h: Habit, days: nat): (t: Rounded)
    ensures t.NaN? <==> h.target.None? || (h.frequencyDays == Some(0) && (h.target.value == 0.0 || days == 0))
    ensures t.PlusInfinity? <==>
      h.kind == Measurable && h.target.Some? && h.target.value > 0.0 && h.frequencyDays == Some(0) && days > 0
    ensures t.MinusInfinity? <==> h.target.Some? && h.target.value < 0.0 && h.frequencyDays == Some(0) && days > 0
  {
    var freq := h.frequencyDays.GetOr(1);
    if h.target.None? then NaN
    else if freq != 0 then
      var raw := ProRated(h.target.value, freq, days);
      var capped := if h.kind == Boolean && days as real < raw then days as real else raw;
      Whole(Round(capped))
    // target / 0 is ±Infinity, or NaN for a zero target; times 0 days, NaN
    else if h.target.value == 0.0 || days == 0 then NaN
    else if h.target.value < 0.0 then MinusInfinity
    else if h.kind == Boolean then Whole(days)
    else
      assert h.kind == Measurable;
      PlusInfinity
  }

  /** `getProgress(habit, period, startDayOfWeek)` on the local day `now`:
      the days of the range are visited one by one from its start, each
      day's value (0 when missing) added to the total and counted. */
  method GetProgress(h: Habit, period: PeriodType, startDay: int, now: Day) returns (p: Progress)
    ensures var r := GetPeriodRange(period, startDay, now);
      p == Progress(RangeSum(h.history, r.start, Length(r)), ProgressTarget(h, Length(r)))
  {
    var r := GetPeriodRange(period, startDay, now);
    var total, days := SumPeriod(h.history, r);
    var target: Rounded := NaN;
    var freq := h.frequencyDays.GetOr(1);
    if h.target.Some? && freq != 0 {
      var raw := ProRated(h.target.value, freq, days);
      if h.kind == Boolean && days as real < raw {
        raw := days as real;
      }
      target := Whole(Round(raw));
    } else if h.target.Some? && h.target.value != 0.0 && days != 0 {
      target := if h.target.value > 0.0 then PlusInfinity else MinusInfinity;
      if h.kind == Boolean && target.PlusInfinity? {
        target := Whole(days);
      }
    }
    p := Progress(total, target);
  }

  /** The loop of `getProgress`: from the first day of the range to the
      last, each day's value (0 when missing) is added to `total` and the
      day counted in `days`. */
  method SumPeriod(history: History, r: Range) returns (total: real, days: nat)
    ensures total == RangeSum(history, r.start, Length(r)) && days == Length(r)
  {
    total := 0.0;
    days := 0;
    var d := r.start;
    while d <= r.end
      invariant d == r.start + days && days <= Length(r)
      invariant total + RangeSum(history, d, Length(r) - days) == RangeSum(history, r.start, Length(r))
      decreases r.end - d
    {
      total := total + Value(history, d);
      days := days + 1;
      d := d + 1;
    }
  }

  /** The recorded days of a history that fall in `n` days from `start`. */
  function Window(h: History, start: Day, n: nat): History {
    map d | d in h && start <= d < start + n :: h[d]
  }

  /** The value of a period is the total of the recorded days inside it:
      each counted once, the missing ones as 0, nothing from outside. */
  lemma {:induction false} RangeSumIsWindowTotal(h: History, start: Day, n: nat)
    ensures RangeSum(h, start, n) == SumValues(Window(h, start, n))
    decreases n
  {
    if n > 0 {
      RangeSumIsWindowTotal(h, start + 1, n - 1);
      var w := Window(h, start, n);
      var rest := Window(h, start + 1, n - 1);
      if start in h {
        SumValuesRemove(w, start);
        assert w - {start} == rest;
      } else {
        assert w == rest;
      }
    } else {
      assert Window(h, start, n) == map[];
    }
  }

  /** A yes/no habit's target never exceeds the days in the period. */
  lemma BooleanTargetAtMostDays(h: Habit, days: nat)
    requires h.kind == Boolean && ProgressTarget(h, days).Whole?
    ensures ProgressTarget(h, days).n <= days
  {
    var freq := h.frequencyDays.GetOr(1);
    if freq != 0 {
      var raw := ProRated(h.target.value, freq, days);
      var capped := if days as real < raw then days as real else raw;
      RoundMonotone(capped, days as real);
      RoundBounds(days as real);
    }
  }

  /** With a `frequencyDays` of 0 a yes/no habit with a positive target asks
      for every day of a non-empty period, since the cap takes the smaller of
      +Infinity and the days; no other habit gets a whole target. */
  lemma ZeroFrequencyTarget(h: Habit, days: nat)
    requires h.frequencyDays == Some(0) && h.target.Some?
    ensures ProgressTarget(h, days).Whole? <==> h.kind == Boolean && h.target.value > 0.0 && days > 0
    ensures ProgressTarget(h, days).Whole? ==> ProgressTarget(h, days).n == days
  {
  }

  /** A once-a-day target of 1 (both possibly defaulted) asks for every day
      of the period: seven in a week. */
  lemma DailyTargetIsDays(h: Habit, days: nat)
    requires h.target == Some(1.0) && (h.frequencyDays == None || h.frequencyDays == Some(1))
    ensures ProgressTarget(h, days) == Whole(days)
  {
    RoundWhole(days);
  }

  /** A measurable habit's target is pro-rated: `t` per `f` days over `days`
      days, rounded, for a whole result. */
  lemma MeasurableTargetProRated(h: Habit, days: nat, n: int)
    requires h.kind == Measurable && h.target.Some? && h.frequencyDays.GetOr(1) != 0
    requires ProRated(h.target.value, h.frequencyDays.GetOr(1), days) == n as real
    ensures ProgressTarget(h, days) == Whole(n)
  {
    RoundWhole(n);
  }
}
