/** Streaks and the overview statistics
    (src/components/widgets/OverviewWidget/helpers.ts). A day is done when its
    value is positive; a streak is a run of consecutive done days. */
module Overview {
  import opened Wrappers
  import opened Civil
  import opened Text
  import opened Habits
  import opened Dates

  /** Every day from `first` through `first + len - 1` is done. */
  ghost predicate RunOf(h: History, first: Day, len: nat) {
    forall d :: first <= d < first + len ==> Completed(h, d)
  }

  /** `calculateCurrentStreak(history)` with today passed in: the length of
      the run of done days ending today, or ending yesterday when today is
      not done yet; 0 when neither day is done. */
  method CalculateCurrentStreak(h: History, today: Day) returns (streak: nat)
    ensures !Completed(h, today) && !Completed(h, today - 1) ==> streak == 0
    ensures Completed(h, today) ==>
      streak >= 1 && RunOf(h, today - streak + 1, streak) && !Completed(h, today - streak)
    ensures !Completed(h, today) && Completed(h, today - 1) ==>
      streak >= 1 && RunOf(h, today - streak, streak) && !Completed(h, today - 1 - streak)
  {
    if |h| == 0 {
      return 0;
    }
    streak := 0;
    var current := today;
    if Completed(h, current) {
      streak := 1;
      current := current - 1;
    } else {
      current := current - 1;
      if Completed(h, current) {
        streak := 1;
        current := current - 1;
      } else {
        return 0;
      }
    }
    ghost var last := current + 1;
    // every done day is a key, so the walk cannot pass the earliest key
    var floor := SetMin(h.Keys) - 1;
    while Completed(h, current)
      invariant floor <= current
      invariant current == last - streak
      invariant RunOf(h, current + 1, streak)
      decreases current - floor
    {
      streak := streak + 1;
      current := current - 1;
    }
  }

  /** In the sorted list of done days, no day strictly between two
      neighbours is done. */
  lemma NoneDoneBetween(h: History, dates: seq<Day>, i: nat)
    requires dates == SortedDays(CompletedDays(h))
    requires 1 <= i < |dates|
    ensures forall x :: dates[i - 1] < x < dates[i] ==> !Completed(h, x)
  {
    forall x | dates[i - 1] < x < dates[i]
      ensures !Completed(h, x)
    {
      SortedDaysMembers(CompletedDays(h), x);
      GapNotIn(dates, i, x);
    }
  }

  /** A day strictly between two neighbours of an increasing list is not in it. */
  lemma GapNotIn(dates: seq<Day>, i: nat, x: Day)
    requires forall a, b :: 0 <= a < b < |dates| ==> dates[a] < dates[b]
    requires 1 <= i < |dates| && dates[i - 1] < x < dates[i]
    ensures x !in dates
  {
    forall k | 0 <= k < |dates|
      ensures dates[k] != x
    {
      if k < i - 1 {
        assert dates[k] < dates[i - 1];
      } else if k > i {
        assert dates[i] < dates[k];
      }
    }
  }

  /** No done day comes after the last entry of the sorted list. */
  lemma NoneDoneAfter(h: History, dates: seq<Day>)
    requires dates == SortedDays(CompletedDays(h))
    requires |dates| > 0
    ensures forall x :: dates[|dates| - 1] < x ==> !Completed(h, x)
  {
    forall x | dates[|dates| - 1] < x
      ensures !Completed(h, x)
    {
      SortedDaysMembers(CompletedDays(h), x);
    }
  }

  /** No run of done days ending on or before `upto` is longer than `bound`. */
  ghost predicate RunsBounded(h: History, upto: Day, bound: nat) {
    forall first: Day, len: nat :: RunOf(h, first, len) && len > 0 && first + len - 1 <= upto ==> len <= bound
  }

  /** `calculateLongestStreak(history)`: the done days in increasing order
      are scanned once, extending the current run on a one-day step and
      restarting it on a gap. The result is the length of the longest run of
      consecutive done days. */
  method CalculateLongestStreak(h: History) returns (longest: nat)
    ensures forall first: Day, len: nat :: RunOf(h, first, len) ==> len <= longest
    ensures longest > 0 ==> exists first :: RunOf(h, first, longest)
    ensures longest == 0 <==> CompletedDays(h) == {}
  {
    var completedDates := SortedDays(CompletedDays(h));
    if |completedDates| == 0 {
      NoRuns(h);
      return 0;
    }
    assert completedDates[0] in CompletedDays(h);
    if |completedDates| == 1 {
      SingleDayRuns(h, completedDates);
      assert RunOf(h, completedDates[0], 1);
      return 1;
    }
    var maxStreak := 1;
    var currentStreak := 1;
    ghost var best := completedDates[0];
    FirstRunBounded(h, completedDates);
    var i := 1;
    while i < |completedDates|
      invariant 1 <= i <= |completedDates|
      invariant 1 <= currentStreak <= maxStreak
      invariant RunOf(h, completedDates[i - 1] - currentStreak + 1, currentStreak)
      invariant !Completed(h, completedDates[i - 1] - currentStreak)
      invariant RunOf(h, best, maxStreak)
      invariant RunsBounded(h, completedDates[i - 1], maxStreak)
    {
      var prevDate := completedDates[i - 1];
      var currDate := completedDates[i];
      var dayDiff := currDate - prevDate;
      if dayDiff == 1 {
        currentStreak := currentStreak + 1;
        if currentStreak > maxStreak {
          best := currDate - currentStreak + 1;
        }
        maxStreak := if maxStreak >= currentStreak then maxStreak else currentStreak;
      } else {
        NoneDoneBetween(h, completedDates, i);
        currentStreak := 1;
      }
      StepBounded(h, completedDates, i, currentStreak, maxStreak);
      i := i + 1;
    }
    AllRunsBounded(h, completedDates, maxStreak);
    return maxStreak;
  }

  lemma NoRuns(h: History)
    requires SortedDays(CompletedDays(h)) == []
    ensures forall first: Day, len: nat :: RunOf(h, first, len) ==> len == 0
    ensures CompletedDays(h) == {}
  {
    forall first: Day, len: nat | RunOf(h, first, len)
      ensures len == 0
    {
      assert len > 0 ==> Completed(h, first);
    }
  }

  lemma SingleDayRuns(h: History, dates: seq<Day>)
    requires dates == SortedDays(CompletedDays(h)) && |dates| == 1
    ensures forall first: Day, len: nat :: RunOf(h, first, len) ==> len <= 1
  {
    forall first: Day, len: nat | RunOf(h, first, len)
      ensures len <= 1
    {
      assert len > 1 ==> Completed(h, first) && Completed(h, first + 1);
    }
  }

  lemma FirstRunBounded(h: History, dates: seq<Day>)
    requires dates == SortedDays(CompletedDays(h)) && |dates| > 0
    ensures RunsBounded(h, dates[0], 1)
  {
    forall first: Day, len: nat | RunOf(h, first, len) && len > 0 && first + len - 1 <= dates[0]
      ensures len <= 1
    {
      assert len > 1 ==> Completed(h, first);
    }
  }

  /** Passing the next done day keeps every run within the bound, given that
      the current run ending there is maximal and within the bound. */
  lemma StepBounded(h: History, dates: seq<Day>, i: nat, current: nat, bound: nat)
    requires dates == SortedDays(CompletedDays(h))
    requires 1 <= i < |dates|
    requires current <= bound
    requires !Completed(h, dates[i] - current)
    requires RunsBounded(h, dates[i - 1], bound)
    ensures RunsBounded(h, dates[i], bound)
  {
    NoneDoneBetween(h, dates, i);
    forall first: Day, len: nat | RunOf(h, first, len) && len > 0 && first + len - 1 <= dates[i]
      ensures len <= bound
    {
      var last := first + len - 1;
      assert Completed(h, last);
      assert last == dates[i] && len > current ==> Completed(h, last - current);
    }
  }

  lemma AllRunsBounded(h: History, dates: seq<Day>, bound: nat)
    requires dates == SortedDays(CompletedDays(h)) && |dates| > 0
    requires RunsBounded(h, dates[|dates| - 1], bound)
    ensures forall first: Day, len: nat :: RunOf(h, first, len) ==> len <= bound
  {
    NoneDoneAfter(h, dates);
    forall first: Day, len: nat | RunOf(h, first, len)
      ensures len <= bound
    {
      assert len > 0 ==> Completed(h, first + len - 1);
    }
  }

  /** `calculateTotalCompletions(history)`: the sum of every value. */
  function CalculateTotalCompletions(h: History): (total: real)
    ensures h == map[] ==> total == 0.0
  {
    SumValues(h)
  }

  /** Recording `v` on day `d` moves the total by `v` minus the old value,
      whichever order the days are summed in. */
  lemma TotalAfterUpdate(h: History, d: Day, v: real)
    ensures CalculateTotalCompletions(h[d := v]) == CalculateTotalCompletions(h) - Value(h, d) + v
  {
    SumValuesUpdate(h, d, v);
  }

  /** Non-negative values give a non-negative total. */
  lemma {:induction false} TotalNonNegative(h: History)
    requires forall d :: d in h ==> h[d] >= 0.0
    ensures CalculateTotalCompletions(h) >= 0.0
    decreases |h|
  {
    if h != map[] {
      var k := SetMin(h.Keys);
      TotalNonNegative(h - {k});
    }
  }

  datatype Activity = Activity(date: string, completed: bool, value: real)

  /** `getRecentActivity(history, days)` with today passed in: one entry per
      day of the `days` days ending today, oldest first (entry i is day
      `today - days + 1 + i`, by `DaysInRange`). */
  function GetRecentActivity(h: History, today: Day, days: nat): (r: seq<Activity>)
    ensures |r| == days
    ensures forall i :: 0 <= i < days ==> r[i].date == ToDateStringLocal(DaysInRange(today, days, true)[i])
    ensures forall i :: 0 <= i < days ==>
      r[i].value == Value(h, today - days + 1 + i) && (r[i].completed <==> r[i].value > 0.0)
  {
    var dates := GetDatesInRange(today, days, true);
    var ds := DaysInRange(today, days, true);
    seq(days, i requires 0 <= i < days => Activity(dates[i], Value(h, ds[i]) > 0.0, Value(h, ds[i])))
  }

  /** The last entry is today. */
  lemma RecentActivityEndsToday(h: History, today: Day, days: nat)
    requires days > 0
    ensures GetRecentActivity(h, today, days)[days - 1].date == ToDateStringLocal(today)
  {
    assert DaysInRange(today, days, true)[days - 1] == today;
  }

  /** With an empty history every recent day is undone with value 0. */
  lemma RecentActivityEmpty(today: Day, days: nat)
    ensures forall a :: a in GetRecentActivity(map[], today, days) ==> !a.completed && a.value == 0.0
  {
    var r := GetRecentActivity(map[], today, days);
    forall a | a in r
      ensures !a.completed && a.value == 0.0
    {
      var i :| 0 <= i < |r| && r[i] == a;
    }
  }

  /** `formatCompletionCount(count, unit)`: a missing or empty unit reads
      "completions"; a count of 1 keeps the unit as given; any other count
      adds an `s` unless the unit already ends in one. */
  function FormatCompletionCount(count: int, unit: Option<string>): (r: string)
    ensures |r| > |IntToString(count)| && r[..|IntToString(count)| + 1] == IntToString(count) + " "
    ensures (unit.None? || unit == Some("")) ==> r == IntToString(count) + " completions"
    ensures unit.Some? && unit.value != "" && count == 1 ==> r == "1 " + unit.value
    ensures unit.Some? && unit.value != "" && count != 1 ==> EndsWith(r, "s")
    ensures unit.Some? && unit.value != "" && EndsWith(unit.value, "s") ==> r == IntToString(count) + " " + unit.value
  {
    var n := IntToString(count);
    if unit.None? || unit.value == "" then n + " completions"
    else if count == 1 then n + " " + unit.value
    else
      var pluralUnit := if EndsWith(unit.value, "s") then unit.value else unit.value + "s";
      n + " " + pluralUnit
  }

  /** `getActivityOpacity(value, target)`: 0.3 for nothing, 1 at or above the
      target, and otherwise between 0.5 and 1 in proportion to the target.
      The one division by zero (a negative value against target 0) is
      excluded. */
  function GetActivityOpacity(value: real, target: real): (r: real)
    requires value >= 0.0 || target != 0.0
    ensures value == 0.0 ==> r == 0.3
    ensures value != 0.0 && value >= target ==> r == 1.0
    ensures 0.0 < value < target ==> 0.5 < r < 1.0
  {
    if value == 0.0 then 0.3
    else if value >= target then 1.0
    else
      FractionBelowOne(value, target);
      0.5 + 0.5 * (value / target)
  }

  lemma FractionBelowOne(v: real, t: real)
    requires t != 0.0 && v < t
    ensures 0.0 < v < t ==> 0.0 < v / t < 1.0
  {
    if 0.0 < v {
      var q := v / t;
      assert q * t == v;
      assert (1.0 - q) * t == t - v;
      SignOfFactor(q, t);
      SignOfFactor(1.0 - q, t);
    }
  }

  lemma SignOfFactor(a: real, b: real)
    requires b > 0.0 && a * b > 0.0
    ensures a > 0.0
  {
  }

  /** For a positive target, more activity never gives a paler cell. */
  lemma OpacityMonotone(v: real, w: real, target: real)
    requires 0.0 <= v <= w && target > 0.0
    ensures GetActivityOpacity(v, target) <= GetActivityOpacity(w, target)
  {
    if 0.0 < v && w < target {
      assert v / target <= w / target by {
        assert w / target - v / target == (w - v) / target;
      }
    }
  }

  datatype OverviewStats = OverviewStats(
    currentStreak: nat,
    longestStreak: nat,
    totalCompletions: real,
    recentActivity: seq<Activity>)

  /** `createOverviewStats(habit)` with today passed in: the current streak
      is the run ending today (or yesterday), the longest streak the longest
      run. The current streak is itself a run, so it never exceeds the
      longest streak. */
  method CreateOverviewStats(habit: Habit, today: Day) returns (stats: OverviewStats)
    ensures !Completed(habit.history, today) && !Completed(habit.history, today - 1) ==> stats.currentStreak == 0
    ensures Completed(habit.history, today) ==>
      var n := stats.currentStreak;
      n >= 1 && RunOf(habit.history, today - n + 1, n) && !Completed(habit.history, today - n)
    ensures !Completed(habit.history, today) && Completed(habit.history, today - 1) ==>
      var n := stats.currentStreak;
      n >= 1 && RunOf(habit.history, today - n, n) && !Completed(habit.history, today - 1 - n)
    ensures forall first: Day, len: nat :: RunOf(habit.history, first, len) ==> len <= stats.longestStreak
    ensures stats.longestStreak > 0 ==> exists first :: RunOf(habit.history, first, stats.longestStreak)
    ensures stats.currentStreak <= stats.longestStreak
    ensures stats.longestStreak == 0 <==> CompletedDays(habit.history) == {}
    ensures stats.totalCompletions == CalculateTotalCompletions(habit.history)
    ensures stats.recentActivity == GetRecentActivity(habit.history, today, 30)
  {
    var current := CalculateCurrentStreak(habit.history, today);
    var longest := CalculateLongestStreak(habit.history);
    if Completed(habit.history, today) {
      assert RunOf(habit.history, today - current + 1, current);
    } else if Completed(habit.history, today - 1) {
      assert RunOf(habit.history, today - current, current);
    }
    stats := OverviewStats(current, longest, CalculateTotalCompletions(habit.history), GetRecentActivity(habit.history, today, 30));
  }
}
