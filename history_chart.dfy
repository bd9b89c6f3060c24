/** The data behind the history bar chart
    (src/components/Widgets/HistoryWidget/helpers.ts): the period keys from
    the first recorded day through today, the values summed per period, and
    the ticks of the y axis. */
module HistoryChart {
  import opened Wrappers
  import opened Civil
  import opened Habits
  import opened PeriodKeys
  import opened Sequences

  // ----- the period-key generators -----

  /** How a generator moves its `current` date on: `setDate(getDate() + 7)`
      for weeks, `setMonth(getMonth() + 1)` for months,
      `setMonth(getMonth() + 3)` for quarters and
      `setFullYear(getFullYear() + 1)` for years. */
  function Advance(d: Day, g: Grouping): Day {
    match g
    case ByWeek => d + 7
    case ByMonth => SetMonth(d, Month0(d) + 1)
    case ByQuarter => SetMonth(d, Month0(d) + 3)
    case ByYear => SetFullYear(d, Year(d) + 1)
  }

  /** Every step moves forward, so the generator loops end. */
  lemma AdvanceLater(d: Day, g: Grouping)
    ensures Advance(d, g) > d
  {
    match g
    case ByWeek =>
    case ByMonth => NextMonthLater(d);
    case ByQuarter => NextQuarterLater(d);
    case ByYear => SetFullYearLater(d);
  }

  /** The dates a generator visits from `d` on: `d`, then each date
      `Advance` reaches, while the date is not after `end`. */
  function Walk(d: Day, end: Day, g: Grouping): (r: seq<Day>)
    ensures forall i :: 0 <= i < |r| ==> d <= r[i] <= end
    decreases end - d
  {
    if d > end then []
    else
      AdvanceLater(d, g);
      [d] + Walk(Advance(d, g), end, g)
  }

  /** The period keys of a list of dates, in order. */
  function KeysOf(days: seq<Day>, g: Grouping): seq<string> {
    Map(d => GetPeriodKey(d, g), days)
  }

  lemma KeysOfPush(days: seq<Day>, d: Day, g: Grouping)
    ensures KeysOf(days + [d], g) == KeysOf(days, g) + [GetPeriodKey(d, g)]
  {
    MapPush(d => GetPeriodKey(d, g), days, d);
  }

  /** Visiting `d` and moving on keeps what is left to visit. */
  lemma WalkStep(visited: seq<Day>, d: Day, end: Day, g: Grouping, total: seq<Day>)
    requires d <= end && visited + Walk(d, end, g) == total
    ensures (visited + [d]) + Walk(Advance(d, g), end, g) == total
  {
    assert Walk(d, end, g) == [d] + Walk(Advance(d, g), end, g);
    assert (visited + [d]) + Walk(Advance(d, g), end, g) == visited + Walk(d, end, g);
  }

  /** The Monday on or before `d`: `getDate() - (getDay() + 6) % 7`. */
  function MondayOnOrBefore(d: Day): (r: Day)
    ensures Weekday(r) == 1 && d - 7 < r <= d
  {
    d - (Weekday(d) + 6) % 7
  }

  /** The date each generator starts from: the Monday on or before the
      start, or the first of its month, of its quarter's first month, or
      of its year. */
  function FirstDate(start: Day, g: Grouping): Day {
    match g
    case ByWeek => MondayOnOrBefore(start)
    case ByMonth => MakeLocalDate(Year(start), Month0(start), 1)
    case ByQuarter => MakeLocalDate(Year(start), Month0(start) / 3 * 3, 1)
    case ByYear => MakeLocalDate(Year(start), 0, 1)
  }

  /** `getWeeklyPeriodKeys(startDate, endDate)` as written: from the Monday
      on or before the start, one key every seven days. */
  method GetWeeklyPeriodKeysAsWritten(start: Day, end: Day) returns (keys: seq<string>)
    ensures keys == KeysOf(Walk(FirstDate(start, ByWeek), end, ByWeek), ByWeek)
  {
    var current := FirstDate(start, ByWeek);
    ghost var visited: seq<Day> := [];
    ghost var all := Walk(current, end, ByWeek);
    keys := [];
    while current <= end
      invariant visited + Walk(current, end, ByWeek) == all
      invariant keys == KeysOf(visited, ByWeek)
      decreases end - current
    {
      WalkStep(visited, current, end, ByWeek, all);
      KeysOfPush(visited, current, ByWeek);
      visited := visited + [current];
      keys := keys + [GetPeriodKey(current, ByWeek)];
      current := current + 7;
    }
    assert visited == all;
  }

  /** `getMonthlyPeriodKeys(startDate, endDate)`: from the first of the start
      day's month, a month at a time. */
  method GetMonthlyPeriodKeys(start: Day, end: Day) returns (keys: seq<string>)
    ensures keys == KeysOf(Walk(FirstDate(start, ByMonth), end, ByMonth), ByMonth)
  {
    var current := FirstDate(start, ByMonth);
    ghost var visited: seq<Day> := [];
    ghost var all := Walk(current, end, ByMonth);
    keys := [];
    while current <= end
      invariant visited + Walk(current, end, ByMonth) == all
      invariant keys == KeysOf(visited, ByMonth)
      decreases end - current
    {
      WalkStep(visited, current, end, ByMonth, all);
      KeysOfPush(visited, current, ByMonth);
      visited := visited + [current];
      keys := keys + [GetPeriodKey(current, ByMonth)];
      NextMonthLater(current);
      current := SetMonth(current, Month0(current) + 1);
    }
    assert visited == all;
  }

  /** `getQuarterlyPeriodKeys(startDate, endDate)`: from the first of the
      start day's quarter, three months at a time. */
  method GetQuarterlyPeriodKeys(start: Day, end: Day) returns (keys: seq<string>)
    ensures keys == KeysOf(Walk(FirstDate(start, ByQuarter), end, ByQuarter), ByQuarter)
  {
    var current := FirstDate(start, ByQuarter);
    ghost var visited: seq<Day> := [];
    ghost var all := Walk(current, end, ByQuarter);
    keys := [];
    while current <= end
      invariant visited + Walk(current, end, ByQuarter) == all
      invariant keys == KeysOf(visited, ByQuarter)
      decreases end - current
    {
      WalkStep(visited, current, end, ByQuarter, all);
      KeysOfPush(visited, current, ByQuarter);
      visited := visited + [current];
      keys := keys + [GetPeriodKey(current, ByQuarter)];
      NextQuarterLater(current);
      current := SetMonth(current, Month0(current) + 3);
    }
    assert visited == all;
  }

  /** `getYearlyPeriodKeys(startDate, endDate)`: from January 1 of the start
      day's year, a year at a time. */
  method GetYearlyPeriodKeys(start: Day, end: Day) returns (keys: seq<string>)
    ensures keys == KeysOf(Walk(FirstDate(start, ByYear), end, ByYear), ByYear)
  {
    var current := FirstDate(start, ByYear);
    ghost var visited: seq<Day> := [];
    ghost var all := Walk(current, end, ByYear);
    keys := [];
    while current <= end
      invariant visited + Walk(current, end, ByYear) == all
      invariant keys == KeysOf(visited, ByYear)
      decreases end - current
    {
      WalkStep(visited, current, end, ByYear, all);
      KeysOfPush(visited, current, ByYear);
      visited := visited + [current];
      keys := keys + [GetPeriodKey(current, ByYear)];
      SetFullYearLater(current);
      current := SetFullYear(current, Year(current) + 1);
    }
    assert visited == all;
  }

  // ----- what the month, quarter and year lists hold -----

  /** How many months one step of a generator covers. */
  function StepOf(g: Grouping): nat {
    match g
    case ByWeek => 0
    case ByMonth => 1
    case ByQuarter => 3
    case ByYear => 12
  }

  /** Month indices inside one step share the year and the bucket. */
  lemma InsideStep(i: int, a: int, s: int)
    requires s == 1 || s == 3 || s == 12
    requires a % s == 0 && a <= i < a + s
    ensures i / 12 == a / 12
    ensures s == 1 ==> i % 12 == a % 12
    ensures s == 3 ==> (i % 12) / 3 == (a % 12) / 3
  {
  }

  /** Month indices a step or more later fall in a later bucket. */
  lemma PastStep(i: int, a: int, s: int)
    requires s == 1 || s == 3 || s == 12
    requires a % s == 0 && a + s <= i
    ensures i / 12 >= a / 12
    ensures s == 1 ==> i / 12 > a / 12 || i % 12 > a % 12
    ensures s == 3 ==> i / 12 > a / 12 || (i % 12) / 3 > (a % 12) / 3
    ensures s == 12 ==> i / 12 > a / 12
  {
  }

  lemma NextStepAligned(a: int, s: int, b: int)
    requires s == 1 || s == 3 || s == 12
    requires a % s == 0 && b == a + s
    ensures b % s == 0
  {
  }

  /** A day whose month lies inside the step that starts at month `a` has
      the bucket of the first day of month `a`. */
  lemma SamePeriod(x: Day, a: int, g: Grouping)
    requires g != ByWeek
    requires a % StepOf(g) == 0 && a <= MonthIndex(x) < a + StepOf(g)
    ensures PeriodOf(x, g) == PeriodOf(MonthStart(a), g)
  {
    var m := MonthStart(a);
    MonthIndexParts(x);
    MonthIndexOfStart(a);
    MonthIndexParts(m);
    InsideStep(MonthIndex(x), a, StepOf(g));
  }

  /** A day whose month lies a step or more after month `a` has a different
      bucket, and a year not before that of the first day of month `a`. */
  lemma LaterPeriod(x: Day, a: int, g: Grouping)
    requires g != ByWeek
    requires a % StepOf(g) == 0 && a + StepOf(g) <= MonthIndex(x)
    ensures PeriodOf(x, g) != PeriodOf(MonthStart(a), g)
    ensures Year(x) >= Year(MonthStart(a))
  {
    var m := MonthStart(a);
    MonthIndexParts(x);
    MonthIndexOfStart(a);
    MonthIndexParts(m);
    PastStep(MonthIndex(x), a, StepOf(g));
  }

  /** From the first day of month `a`, the step of `g` reaches the first day
      of month `a + StepOf(g)`. */
  lemma AdvanceOfMonthStart(a: int, g: Grouping, b: int)
    requires g != ByWeek && b == a + StepOf(g)
    ensures Advance(MonthStart(a), g) == MonthStart(b)
  {
    match g
    case ByMonth => SetMonthOfStart(a, 1);
    case ByQuarter => SetMonthOfStart(a, 3);
    case ByYear => SetFullYearOfStart(a);
  }

  /** One step of a month, quarter or year walk from the first of month
      `a` to the first of month `b`. */
  lemma WalkFromMonthStart(a: int, m: Day, b: int, n: Day, end: Day, g: Grouping)
    requires g != ByWeek && a % StepOf(g) == 0 && m == MonthStart(a) && m <= end
    requires b == a + StepOf(g) && n == MonthStart(b)
    ensures Walk(m, end, g) == [m] + Walk(n, end, g)
    ensures m < n && b % StepOf(g) == 0
  {
    assert Advance(m, g) == n by { AdvanceOfMonthStart(a, g, b); }
    NextStepAligned(a, StepOf(g), b);
    MonthStartIncreasing(a, b);
  }

  /** Every day from the first day of month `a` to `end` shares its bucket
      with a date a month, quarter or year generator visits from there. */
  lemma WalkCovers(a: int, m: Day, x: Day, end: Day, g: Grouping) returns (i: nat)
    requires g != ByWeek && a % StepOf(g) == 0 && m == MonthStart(a)
    requires m <= x <= end
    ensures i < |Walk(m, end, g)|
    ensures PeriodOf(Walk(m, end, g)[i], g) == PeriodOf(x, g)
  {
    var c, e;
    WalkAligned(a, m, end, g);
    i, c, e := AlignedReaches(Walk(m, end, g), a, x, end, g);
    StepPeriod(c, e, x, g);
  }

  /** `w` lists the first days of the aligned steps from month `a` on, up to `end`. */
  ghost predicate AlignedFrom(w: seq<Day>, a: int, end: Day, g: Grouping)
    requires g != ByWeek
    decreases |w|
  {
    if MonthStart(a) > end then w == []
    else |w| > 0 && w[0] == MonthStart(a) && AlignedFrom(w[1..], a + StepOf(g), end, g)
  }

  /** The walk from the first day of an aligned step visits the first days
      of the following aligned steps. */
  lemma {:induction false} WalkAligned(a: int, m: Day, end: Day, g: Grouping)
    requires g != ByWeek && a % StepOf(g) == 0 && m == MonthStart(a)
    ensures AlignedFrom(Walk(m, end, g), a, end, g)
    decreases end - m
  {
    if m <= end {
      var b := a + StepOf(g);
      var n := MonthStart(b);
      WalkFromMonthStart(a, m, b, n, end, g);
      WalkAligned(b, n, end, g);
      assert Walk(m, end, g)[1..] == Walk(n, end, g);
    }
  }

  /** Such a list reaches the first day of the aligned step holding each
      day up to the end day. */
  lemma {:induction false} AlignedReaches(w: seq<Day>, a: int, x: Day, end: Day, g: Grouping)
    returns (i: nat, c: int, e: int)
    requires g != ByWeek && a % StepOf(g) == 0 && AlignedFrom(w, a, end, g)
    requires MonthStart(a) <= x <= end
    ensures i < |w| && w[i] == MonthStart(c)
    ensures c % StepOf(g) == 0 && e == c + StepOf(g) && MonthStart(c) <= x < MonthStart(e)
    decreases |w|
  {
    var b := a + StepOf(g);
    assert |w| > 0 && w[0] == MonthStart(a) && AlignedFrom(w[1..], b, end, g);
    if x < MonthStart(b) {
      i, c, e := 0, a, b;
    } else {
      NextStepAligned(a, StepOf(g), b);
      var k;
      k, c, e := AlignedReaches(w[1..], b, x, end, g);
      assert w[k + 1] == w[1..][k];
      i := k + 1;
    }
  }

  /** A day between the first days of an aligned step and the next is in the
      period of the first. */
  lemma StepPeriod(c: int, b: int, x: Day, g: Grouping)
    requires g != ByWeek && c % StepOf(g) == 0 && b == c + StepOf(g)
    requires MonthStart(c) <= x < MonthStart(b)
    ensures PeriodOf(MonthStart(c), g) == PeriodOf(x, g)
  {
    MonthStartBefore(c, x);
    MonthStartBefore(b, x);
    SamePeriod(x, c, g);
  }

  /** The year of a day is at least the year of any earlier first of a month. */
  lemma YearAfterMonthStart(a: int, x: Day)
    requires MonthStart(a) <= x
    ensures Year(x) >= Year(MonthStart(a))
  {
    MonthStartBefore(a, x);
    MonthIndexParts(x);
    MonthIndexOfStart(a);
    MonthIndexParts(MonthStart(a));
  }

  lemma LaterThanStep(a: int, b: int, n: Day, y: Day, g: Grouping)
    requires g != ByWeek && a % StepOf(g) == 0 && b == a + StepOf(g)
    requires n == MonthStart(b) && n <= y
    ensures PeriodOf(y, g) != PeriodOf(MonthStart(a), g)
  {
    MonthStartBefore(b, y);
    LaterPeriod(y, a, g);
  }

  /** The buckets of a list of dates, in order. */
  function PeriodsOf(days: seq<Day>, g: Grouping): seq<Period> {
    Map(d => PeriodOf(d, g), days)
  }

  /** A month, quarter or year generator visits each bucket at most once. */
  lemma {:induction false} WalkDistinctPeriods(a: int, m: Day, end: Day, g: Grouping)
    requires g != ByWeek && a % StepOf(g) == 0 && m == MonthStart(a)
    ensures Distinct(PeriodsOf(Walk(m, end, g), g))
    decreases end - m
  {
    if m <= end {
      var b := a + StepOf(g);
      var n := MonthStart(b);
      var tail := Walk(n, end, g);
      WalkFromMonthStart(a, m, b, n, end, g);
      WalkDistinctPeriods(b, n, end, g);
      var ps := PeriodsOf(tail, g);
      forall j | 0 <= j < |ps|
        ensures ps[j] != PeriodOf(m, g)
      {
        LaterThanStep(a, b, n, tail[j], g);
      }
      MapCons(d => PeriodOf(d, g), m, tail);
      DistinctCons(PeriodOf(m, g), ps);
    }
  }

  // ----- the generators from a start day -----

  /** The month index a month, quarter or year generator starts from. */
  function FirstMonthIndex(start: Day, g: Grouping): int {
    match g
    case ByWeek => MonthIndex(start)
    case ByMonth => MonthIndex(start)
    case ByQuarter => 12 * Year(start) + Month0(start) / 3 * 3
    case ByYear => 12 * Year(start)
  }

  /** `new Date(y, mi, 1)` with `mi` in 0..11 and `y` outside 0..99 is the
      first day of month `12 * y + mi`. */
  lemma LocalMonthStart(y: int, mi: int)
    requires !(0 <= y <= 99) && 0 <= mi < 12
    ensures MakeLocalDate(y, mi, 1) == MonthStart(12 * y + mi)
  {
  }

  /** `new Date(getFullYear(), mi, 1)` for a month `mi` not after the start
      day's month is the first day of month `a` and not after the start. */
  lemma LocalStartNotAfter(start: Day, mi: int, a: int)
    requires !(0 <= Year(start) <= 99) && 0 <= mi <= Month0(start)
    requires a == 12 * Year(start) + mi
    ensures MakeLocalDate(Year(start), mi, 1) == MonthStart(a)
    ensures MonthStart(a) <= start
  {
    LocalMonthStart(Year(start), mi);
    assert a <= MonthIndex(start);
    MonthStartBefore(a, start);
  }

  lemma AlignedArith(y: int, mi: int)
    requires 0 <= mi < 12
    ensures (12 * y + mi / 3 * 3) % 3 == 0 && 0 <= mi / 3 * 3 <= mi
    ensures (12 * y) % 12 == 0
  {
  }

  /** Outside the years 0..99 a month, quarter or year generator starts on
      the first day of a month aligned to its step, not after the start. */
  lemma FirstDateAligned(start: Day, g: Grouping)
    requires g != ByWeek && !(0 <= Year(start) <= 99)
    ensures FirstMonthIndex(start, g) % StepOf(g) == 0
    ensures FirstDate(start, g) == MonthStart(FirstMonthIndex(start, g))
    ensures FirstDate(start, g) <= start
  {
    AlignedArith(Year(start), Month0(start));
    match g
    case ByMonth => LocalStartNotAfter(start, Month0(start), FirstMonthIndex(start, g));
    case ByQuarter => LocalStartNotAfter(start, Month0(start) / 3 * 3, FirstMonthIndex(start, g));
    case ByYear => LocalStartNotAfter(start, 0, FirstMonthIndex(start, g));
  }

  /** Outside the years 0..99 the month, quarter and year lists hold the key
      of every day from the start day to the end day. */
  lemma GeneratorCovers(start: Day, end: Day, x: Day, g: Grouping)
    requires g != ByWeek && !(0 <= Year(start) <= 99)
    requires start <= x <= end
    ensures GetPeriodKey(x, g) in KeysOf(Walk(FirstDate(start, g), end, g), g)
  {
    var m := FirstDate(start, g);
    var a := FirstMonthIndex(start, g);
    FirstDateAligned(start, g);
    var w := Walk(m, end, g);
    var i := WalkCovers(a, m, x, end, g);
    assert KeysOf(w, g)[i] == GetPeriodKey(w[i], g);
  }

  /** From year 0 on, dates in distinct buckets have distinct keys. */
  lemma DistinctKeysOfPeriods(w: seq<Day>, g: Grouping)
    requires Distinct(PeriodsOf(w, g))
    requires forall k :: 0 <= k < |w| ==> Year(w[k]) >= 0
    ensures Distinct(KeysOf(w, g))
  {
    var keys := KeysOf(w, g);
    forall i, j | 0 <= i < j < |keys|
      ensures keys[i] != keys[j]
    {
      assert PeriodsOf(w, g)[i] != PeriodsOf(w, g)[j];
      PeriodKeyInjective(w[i], w[j], g);
    }
  }

  /** The year of a month's first day is the year part of its index. */
  lemma YearOfMonthStart(a: int, m: Day)
    requires m == MonthStart(a)
    ensures Year(m) == a / 12
  {
    MonthIndexOfStart(a);
    MonthIndexParts(m);
  }

  lemma YearPart(y: int, r: int)
    requires 0 <= r < 12
    ensures (12 * y + r) / 12 == y
  {
  }

  lemma FirstMonthYear(start: Day, g: Grouping)
    ensures FirstMonthIndex(start, g) / 12 == Year(start)
  {
    var y, mi := Year(start), Month0(start);
    AlignedArith(y, mi);
    match g
    case ByWeek => YearPart(y, mi);
    case ByMonth => YearPart(y, mi);
    case ByQuarter => YearPart(y, mi / 3 * 3);
    case ByYear => YearPart(y, 0);
  }

  /** From year 100 on the month, quarter and year lists hold no key twice. */
  lemma GeneratorKeysDistinct(start: Day, end: Day, g: Grouping)
    requires g != ByWeek && Year(start) >= 100
    ensures Distinct(KeysOf(Walk(FirstDate(start, g), end, g), g))
  {
    var m := FirstDate(start, g);
    var a := FirstMonthIndex(start, g);
    FirstDateAligned(start, g);
    var w := Walk(m, end, g);
    WalkDistinctPeriods(a, m, end, g);
    YearOfMonthStart(a, m);
    FirstMonthYear(start, g);
    forall k | 0 <= k < |w|
      ensures Year(w[k]) >= 0
    {
      YearAfterMonthStart(a, w[k]);
    }
    DistinctKeysOfPeriods(w, g);
  }

  // ----- weeks -----

  /** The week of a day in year `y` whose January 1 is day `jan1`. */
  lemma WeekOfDay(d: Day, y: int, jan1: Day, w: int)
    requires y >= 100 && jan1 == DaysBeforeYear(y) && jan1 <= d < jan1 + YearLength(y)
    requires w == (d - jan1 + Weekday(jan1) + 7) / 7
    ensures PeriodOf(d, ByWeek) == WeekOf(y, w)
  {
    YearOfDayIn(d, y);
    JanFirstIs(y, jan1);
    WeekNumberIn(d, y, jan1);
  }

  lemma JanFirstIs(y: int, jan1: Day)
    requires y >= 100 && jan1 == DaysBeforeYear(y)
    ensures JanFirst(y) == jan1
  {
    JanFirstOf(y);
  }


  /** Day 20454 is Thursday 2026-01-01. */
  lemma NewYear2026(jan1: Day)
    requires jan1 == 20454
    ensures jan1 == ToDay(Date(2026, 1, 1)) == DaysBeforeYear(2026) && Weekday(jan1) == 4
  {
  }

  /** The last week of December belongs to the year before. */
  lemma LateDecember(y: int, jan1: Day, d: Day)
    requires jan1 == DaysBeforeYear(y) && jan1 - 7 <= d < jan1
    ensures Year(d) == y - 1
  {
    YearStep(y - 1);
    YearOfDayIn(d, y - 1);
  }

  /** When January 1 is a Thursday, the Monday before it is in another
      year's week ... */
  lemma ThursdayNewYearApartFromMondayBefore(y: int, jan1: Day)
    requires y >= 101 && jan1 == DaysBeforeYear(y) && Weekday(jan1) == 4
    ensures Year(jan1 - 3) >= 0 && Year(jan1) >= 0
    ensures PeriodOf(jan1, ByWeek) != PeriodOf(jan1 - 3, ByWeek)
  {
    LateDecember(y, jan1, jan1 - 3);
    YearOfDayIn(jan1, y);
  }

  /** ... and the Monday after it is in week 2, while January 1 is in week 1. */
  lemma ThursdayNewYearApartFromMondayAfter(y: int, jan1: Day)
    requires y >= 101 && jan1 == DaysBeforeYear(y) && Weekday(jan1) == 4
    ensures Year(jan1 + 4) >= 0 && Year(jan1) >= 0
    ensures PeriodOf(jan1, ByWeek) != PeriodOf(jan1 + 4, ByWeek)
  {
    WeekOfDay(jan1, y, jan1, 1);
    WeekOfDay(jan1 + 4, y, jan1, 2);
  }

  /** Days in different periods have different keys. */
  lemma KeysApart(d: Day, e: Day, g: Grouping)
    requires Year(d) >= 0 && Year(e) >= 0 && PeriodOf(d, g) != PeriodOf(e, g)
    ensures GetPeriodKey(d, g) != GetPeriodKey(e, g)
  {
    PeriodKeyInjective(d, e, g);
  }

  /** So neither Monday shares January 1's key. */
  lemma ThursdayNewYearKeyApart(y: int, jan1: Day, before: Day, after: Day)
    requires y >= 101 && jan1 == DaysBeforeYear(y) && Weekday(jan1) == 4
    requires before == jan1 - 3 && after == jan1 + 4
    ensures GetPeriodKey(jan1, ByWeek) != GetPeriodKey(before, ByWeek)
    ensures GetPeriodKey(jan1, ByWeek) != GetPeriodKey(after, ByWeek)
  {
    ThursdayNewYearApartFromMondayBefore(y, jan1);
    KeysApart(jan1, before, ByWeek);
    ThursdayNewYearApartFromMondayAfter(y, jan1);
    KeysApart(jan1, after, ByWeek);
  }

  /** The Mondays the as-written weekly list visits from a Thursday January 1
      to the Saturday after next. */
  lemma MondaysFromThursday(jan1: Day, today: Day)
    requires Weekday(jan1) == 4 && today == jan1 + 9
    ensures FirstDate(jan1, ByWeek) == jan1 - 3
    ensures Walk(jan1 - 3, today, ByWeek) == [jan1 - 3, jan1 + 4]
  {
    var next := jan1 + 4;
    assert Walk(next + 7, today, ByWeek) == [];
    assert Walk(next, today, ByWeek) == [next];
  }

  /** A key is missing from the keys of two days whose keys differ from it. */
  lemma KeyMissingFromPair(x: Day, a: Day, b: Day, w: seq<Day>, g: Grouping)
    requires w == [a, b]
    requires GetPeriodKey(x, g) != GetPeriodKey(a, g) && GetPeriodKey(x, g) != GetPeriodKey(b, g)
    ensures GetPeriodKey(x, g) !in KeysOf(w, g)
  {
    NotInPair(GetPeriodKey(x, g), KeysOf(w, g));
  }

  /** The weekly list as written steps from Monday to Monday, but week keys
      count Sunday-to-Saturday weeks that January 1 cuts in two. When
      January 1 is a Thursday, a history whose first entry falls on it,
      charted on the Saturday after next, gets the keys of the Monday before
      (last week of the old year) and the Monday after (week 2): the key of
      week 1, which holds the entry, is missing. 2026 is such a year
      (`NewYear2026`): the chart shows `2025-W53` and `2026-W2` but the
      completion is counted under `2026-W1`. */
  lemma WeeklyAsWrittenSkipsWeekOne(y: int, jan1: Day, today: Day)
    requires y >= 101 && jan1 == DaysBeforeYear(y) && Weekday(jan1) == 4 && today == jan1 + 9
    ensures GetPeriodKey(jan1, ByWeek) !in KeysOf(Walk(FirstDate(jan1, ByWeek), today, ByWeek), ByWeek)
  {
    var w := Walk(FirstDate(jan1, ByWeek), today, ByWeek);
    MondaysFromThursday(jan1, today);
    ThursdayNewYearKeyApart(y, jan1, jan1 - 3, jan1 + 4);
    KeyMissingFromPair(jan1, jan1 - 3, jan1 + 4, w, ByWeek);
  }

  // ----- the weekly list, corrected -----

  /** The days from `start` through `end`, in order. */
  function DaysBetween(start: Day, end: Day): (r: seq<Day>)
    decreases end - start
  {
    if start > end then [] else [start] + DaysBetween(start + 1, end)
  }

  /** The days listed are exactly those from `start` through `end`. */
  lemma {:induction false} DaysBetweenMembers(start: Day, end: Day, x: Day)
    ensures x in DaysBetween(start, end) <==> start <= x <= end
    decreases end - start
  {
    if start <= end {
      DaysBetweenMembers(start + 1, end, x);
    }
  }

  /** What the weekly list is meant to hold: the key of every week that has
      a day from `start` through `end`, once each, in order. */
  function WeekKeys(start: Day, end: Day): seq<string> {
    Squeeze(KeysOf(DaysBetween(start, end), ByWeek), None)
  }

  /** The weekly list, corrected: the range is walked one day at a time and
      a day's week key is added when it differs from the last key added. */
  method GetWeeklyPeriodKeys(start: Day, end: Day) returns (keys: seq<string>)
    ensures keys == WeekKeys(start, end)
  {
    keys := [];
    var current := start;
    assert keys + Squeeze(KeysOf(DaysBetween(current, end), ByWeek), LastOf(keys)) == WeekKeys(start, end) by {
      assert LastOf(keys) == None;
    }
    while current <= end
      invariant keys + Squeeze(KeysOf(DaysBetween(current, end), ByWeek), LastOf(keys)) == WeekKeys(start, end)
      decreases end - current
    {
      var key := GetPeriodKey(current, ByWeek);
      var next := if LastOf(keys) != Some(key) then keys + [key] else keys;
      WeekKeysStep(keys, current, end, key, next, WeekKeys(start, end));
      keys := next;
      current := current + 1;
    }
    assert DaysBetween(current, end) == [];
    assert KeysOf([], ByWeek) == [];
    assert keys + [] == keys;
  }

  /** One day of the weekly loop: its key is added unless it repeats the
      last key, and the rest of the range is left. */
  lemma WeekKeysStep(keys: seq<string>, current: Day, end: Day, key: string, next: seq<string>, total: seq<string>)
    requires current <= end && key == GetPeriodKey(current, ByWeek)
    requires keys + Squeeze(KeysOf(DaysBetween(current, end), ByWeek), LastOf(keys)) == total
    requires next == if LastOf(keys) != Some(key) then keys + [key] else keys
    ensures next + Squeeze(KeysOf(DaysBetween(current + 1, end), ByWeek), LastOf(next)) == total
  {
    var rest := KeysOf(DaysBetween(current + 1, end), ByWeek);
    assert KeysOf(DaysBetween(current, end), ByWeek) == [key] + rest by {
      MapCons(d => GetPeriodKey(d, ByWeek), current, DaysBetween(current + 1, end));
    }
    SqueezeStep(keys, key, rest, total);
  }

  /** Every day from `start` through `end` has its week key in the list. */
  lemma WeekKeysCover(start: Day, end: Day, x: Day)
    requires start <= x <= end
    ensures GetPeriodKey(x, ByWeek) in WeekKeys(start, end)
  {
    var days := DaysBetween(start, end);
    DaysBetweenMembers(start, end, x);
    var i :| 0 <= i < |days| && days[i] == x;
    assert KeysOf(days, ByWeek)[i] == GetPeriodKey(x, ByWeek);
    SqueezeKeeps(KeysOf(days, ByWeek), None, GetPeriodKey(x, ByWeek));
  }

  /** Every key in the list is the week key of a day in the range. */
  lemma WeekKeysSound(start: Day, end: Day, key: string) returns (x: Day)
    requires key in WeekKeys(start, end)
    ensures start <= x <= end && GetPeriodKey(x, ByWeek) == key
  {
    var days := DaysBetween(start, end);
    SqueezeSound(KeysOf(days, ByWeek), None, key);
    var i :| 0 <= i < |days| && KeysOf(days, ByWeek)[i] == key;
    x := days[i];
    DaysBetweenMembers(start, end, x);
  }

  /** No key follows itself in the list. */
  lemma WeekKeysNoRepeats(start: Day, end: Day)
    ensures forall i :: 0 < i < |WeekKeys(start, end)| ==> WeekKeys(start, end)[i - 1] != WeekKeys(start, end)[i]
  {
    SqueezeNoRepeats(KeysOf(DaysBetween(start, end), ByWeek), None);
  }

  /** For the history of the counterexample above the corrected list has
      the key of week 1. */
  lemma WeeklyCorrectedHasWeekOne(jan1: Day, today: Day)
    requires today == jan1 + 9
    ensures GetPeriodKey(jan1, ByWeek) in WeekKeys(jan1, today)
  {
    WeekKeysCover(jan1, today, jan1);
  }
}
