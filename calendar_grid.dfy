/** The helpers behind the year calendar
    (src/components/Widgets/CalendarWidget/helpers.ts): padding a date list
    back to the first day of the week, cutting it into week columns, the
    days of a year, the month labels, the navigable years, and the colour
    of a cell. */
module CalendarGrid {
  import opened Wrappers
  import opened Civil
  import opened Text
  import opened Dates
  import opened Sequences

  // ----- padding to the start of the week -----

  /** How many days `padDatesToWeekStart` puts before a first day `first`:
      `(getDay() - startDayOfWeek + 7) % 7`, and none when that is negative
      (the loop then does not run). */
  function PadCount(first: Day, startDay: int): nat {
    var pad := JsRem(Weekday(first) - startDay + 7, 7);
    if pad < 0 then 0 else pad
  }

  /** The ascending run of `n + 1` days ending on `end` is the day `d`
      before the run of `n` days ending there. */
  lemma PrependDay(end: Day, n: nat, d: Day)
    requires d == end - n
    ensures DaysInRange(end, n + 1, true) == [d] + DaysInRange(end, n, true)
  {
    var a, b := DaysInRange(end, n + 1, true), DaysInRange(end, n, true);
    forall k | 0 <= k < n
      ensures a[k + 1] == b[k]
    {
    }
  }

  /** One step of the padding loop: the string of the day `n + 1` before
      the first date goes in front of the `n` days already there. */
  lemma PadStep<T>(f: Day -> T, end: Day, n: nat, d: Day, dates: seq<T>, padded: seq<T>)
    requires d == end - n && padded == Map(f, DaysInRange(end, n, true)) + dates
    ensures [f(d)] + padded == Map(f, DaysInRange(end, n + 1, true)) + dates
  {
    PrependDay(end, n, d);
    MapCons(f, d, DaysInRange(end, n, true));
    ConcatAssoc([f(d)], Map(f, DaysInRange(end, n, true)), dates);
  }

  /** `padDatesToWeekStart(dates, startDayOfWeek)`: the days before the
      first date, one at a time back to the chosen first day of the week,
      each put in front of the list. An unparseable first date (NaN) adds
      nothing. */
  method PadDatesToWeekStart(dates: seq<string>, startDay: int) returns (padded: seq<string>)
    ensures dates == [] ==> padded == []
    ensures dates != [] && ParseDateStringLocal(dates[0]).None? ==> padded == dates
    ensures dates != [] && ParseDateStringLocal(dates[0]).Some? ==>
      var first := ParseDateStringLocal(dates[0]).value;
      padded == Map(ToDateStringLocal, DaysInRange(first - 1, PadCount(first, startDay), true)) + dates
  {
    if |dates| == 0 {
      return [];
    }
    var firstDate := ParseDateStringLocal(dates[0]);
    padded := dates;
    if firstDate.None? {
      return;
    }
    padded := PadBefore(ToDateStringLocal, dates, firstDate.value, startDay);
  }

  /** The padding of `padDatesToWeekStart` once the first date is known:
      for i = 1 .. pad, the text `f` gives for the day i days before
      `first` goes in front of the list. */
  method PadBefore<T>(f: Day -> T, dates: seq<T>, first: Day, startDay: int) returns (padded: seq<T>)
    ensures padded == Map(f, DaysInRange(first - 1, PadCount(first, startDay), true)) + dates
  {
    var pad := JsRem(Weekday(first) - startDay + 7, 7);
    padded := dates;
    var i: nat := 1;
    while i <= pad
      invariant 1 <= i <= if pad < 0 then 1 else pad + 1
      invariant padded == Map(f, DaysInRange(first - 1, i - 1, true)) + dates
      decreases pad - i
    {
      PadStep(f, first - 1, i - 1, first - i, dates, padded);
      padded := [f(first - i)] + padded;
      i := i + 1;
    }
    assert i - 1 == PadCount(first, startDay);
  }

  /** For a first day of the week in 0..6, 0 to 6 days are added, and the
      first of them falls on that day of the week. */
  lemma PadReachesWeekStart(first: Day, startDay: int, pad: int)
    requires 0 <= startDay < 7 && pad == PadCount(first, startDay)
    ensures 0 <= pad < 7
    ensures Weekday(first - pad) == startDay
  {
    var w := Weekday(first);
    assert pad == if w - startDay >= 0 then w - startDay else w - startDay + 7;
    WeekdayShift(first - pad, pad);
    assert first - pad + pad == first;
  }

  /** A day less than a week before a day of the year 101 or later is in
      the year 100 or later. */
  lemma StartOfYearOrLater(first: Day, d: Day, y: int, z: int)
    requires y == Year(first) && z == Year(d)
    requires y >= 101 && first - 7 < d <= first
    ensures z >= 100
  {
    DayInYear(first);
    DayInYear(d);
    if z < 100 {
      YearStep(z);
      YearsMonotone(z + 1, 100);
      YearsMonotone(100, y);
      assert false;
    }
  }

  /** From the year 101 on, a day less than a week before a date (such as
      the first day of the padding) reads back from its string. */
  lemma PaddingReadsBack(first: Day, y: int, d: Day)
    requires y == Year(first) && y >= 101 && first - 7 < d <= first
    ensures ParseDateStringLocal(ToDateStringLocal(d)) == Some(d)
  {
    StartOfYearOrLater(first, d, y, Year(d));
    ParseFormat(d);
  }

  // ----- week columns -----

  /** The list cut into runs of seven, the last run holding what is left. */
  function Chunks(s: seq<string>): seq<seq<string>>
    decreases |s|
  {
    if s == [] then []
    else
      var n := if |s| < 7 then |s| else 7;
      [s[..n]] + Chunks(s[n..])
  }

  /** The runs put back together. */
  function Flatten(ss: seq<seq<string>>): seq<string>
    decreases |ss|
  {
    if ss == [] then [] else ss[0] + Flatten(ss[1..])
  }

  /** `groupDatesByWeek(dates)`: `dates.slice(i, i + 7)` for i = 0, 7, 14, …
      while i is inside the list. */
  method GroupDatesByWeek(dates: seq<string>) returns (weeks: seq<seq<string>>)
    ensures weeks == Chunks(dates)
  {
    weeks := [];
    var i := 0;
    while i < |dates|
      invariant 0 <= i
      invariant weeks + Chunks(if i < |dates| then dates[i..] else []) == Chunks(dates)
      decreases |dates| - i
    {
      var end := if i + 7 < |dates| then i + 7 else |dates|;
      var rest := dates[i..];
      assert Chunks(rest) == [rest[..end - i]] + Chunks(rest[end - i..]);
      assert rest[..end - i] == dates[i..end];
      assert rest[end - i..] == if i + 7 < |dates| then dates[i + 7..] else [];
      weeks := weeks + [dates[i..end]];
      i := i + 7;
    }
  }

  /** The columns hold the dates in order, nothing lost or repeated. */
  lemma {:induction false} ChunksFlatten(s: seq<string>)
    ensures Flatten(Chunks(s)) == s
    decreases |s|
  {
    if s != [] {
      var n := if |s| < 7 then |s| else 7;
      ChunksFlatten(s[n..]);
      assert Chunks(s)[1..] == Chunks(s[n..]);
      assert s[..n] + s[n..] == s;
    }
  }

  /** There are ⌈n / 7⌉ columns; every column has seven dates except the
      last, which has one to seven. */
  lemma {:induction false} ChunksSizes(s: seq<string>)
    ensures |Chunks(s)| == (|s| + 6) / 7
    ensures forall k :: 0 <= k < |Chunks(s)| ==> 1 <= |Chunks(s)[k]| <= 7
    ensures forall k :: 0 <= k < |Chunks(s)| - 1 ==> |Chunks(s)[k]| == 7
    decreases |s|
  {
    if s != [] {
      var n := if |s| < 7 then |s| else 7;
      ChunksSizes(s[n..]);
      var c := Chunks(s);
      assert c[1..] == Chunks(s[n..]);
      forall k | 0 < k < |c|
        ensures c[k] == Chunks(s[n..])[k - 1]
      {
      }
    }
  }

  // ----- the days of a year -----

  /** The number of milliseconds in a day. */
  const MsPerDay := 86400000

  /** The last day listed for `year`: today for the current year,
      otherwise `new Date(year, 11, 31)`. */
  function YearEnd(year: int, now: Day): Day {
    if year == Year(now) then now else MakeLocalDate(year, 11, 31)
  }

  /** The number of days `getDatesInYear` lists, as written: the ceiling of
      the time from `new Date(year, 0, 1)` to the end in days, plus one, so
      for the current year any moment after midnight adds a day; a
      negative count lists nothing. */
  function YearCountAsWritten(year: int, now: Day, msIntoDay: nat): nat
    requires msIntoDay < MsPerDay
  {
    var count := YearEnd(year, now) - MakeLocalDate(year, 0, 1)
      + (if year == Year(now) && msIntoDay > 0 then 1 else 0) + 1;
    if count < 0 then 0 else count
  }

  /** `getDatesInYear(year)` as written, with the present given as the
      local day `now` and the milliseconds `msIntoDay` since its midnight:
      the run of days ending on the last day, oldest first. Another year, or
      the current one at midnight, gives the corrected list; the current
      year after midnight, from the year 100 on, gives December 31 of the
      year before followed by the corrected list. */
  function DatesInYearAsWritten(year: int, now: Day, msIntoDay: nat): (r: seq<string>)
    requires msIntoDay < MsPerDay
    ensures year != Year(now) || msIntoDay == 0 ==> r == DatesInYear(year, now)
    ensures year >= 100 && year == Year(now) && msIntoDay > 0 ==>
      |r| == |DatesInYear(year, now)| + 1 &&
      r[0] == ToDateStringLocal(MakeLocalDate(year, 0, 1) - 1) &&
      r[1..] == DatesInYear(year, now)
  {
    var end := YearEnd(year, now);
    var count := YearCountAsWritten(year, now, msIntoDay);
    if year >= 100 && year == Year(now) && msIntoDay > 0 then
      DatesInYearStartsADayEarly(year, now, msIntoDay, end, count);
      DropOldestDate(end, count);
      GetDatesInRange(end, count, true)
    else
      GetDatesInRange(end, count, true)
  }

  /** Leaving out the oldest day of a run ending on `end` gives the run one
      day shorter. */
  lemma DropOldestDate(end: Day, n: nat)
    requires n > 0
    ensures GetDatesInRange(end, n, true)[1..] == GetDatesInRange(end, n - 1, true)
  {
    var a := GetDatesInRange(end, n, true);
    var b := GetDatesInRange(end, n - 1, true);
    var da := DaysInRange(end, n, true);
    var db := DaysInRange(end, n - 1, true);
    forall i | 0 <= i < n - 1
      ensures a[i + 1] == b[i]
    {
      assert da[i + 1] == db[i];
    }
    assert a[1..] == b;
  }

  /** The number of days of a year, corrected: January 1 through the last
      day, whatever the time of day. */
  function YearCount(year: int, now: Day): nat {
    var count := YearEnd(year, now) - MakeLocalDate(year, 0, 1) + 1;
    if count < 0 then 0 else count
  }

  /** The days of a year, corrected: January 1 through December 31, or
      through today for the current year. */
  function DatesInYear(year: int, now: Day): seq<string> {
    GetDatesInRange(YearEnd(year, now), YearCount(year, now), true)
  }

  /** December 31 is the day before the next January 1. */
  lemma LastDayOfYear(year: int)
    requires !(0 <= year <= 99)
    ensures MakeLocalDate(year, 11, 31) == DaysBeforeYear(year + 1) - 1
    ensures MakeLocalDate(year, 0, 1) == DaysBeforeYear(year)
  {
    var a := 12 * year + 11;
    MonthIndexSplit(year, 11, a);
    YearStep(year);
    JanFirstOf(year);
  }

  /** Another year than the current one lists the days from
      `new Date(year, 0, 1)` to `new Date(year, 11, 31)`. */
  lemma OtherYearSpan(year: int, now: Day, jan1: Day, dec31: Day)
    requires year != Year(now) && jan1 == MakeLocalDate(year, 0, 1) && dec31 == MakeLocalDate(year, 11, 31)
    requires jan1 <= dec31
    ensures YearEnd(year, now) == dec31 && YearCount(year, now) == dec31 - jan1 + 1
  {
  }

  /** Another year than the current one, from the year 100 on, lists its
      365 or 366 days: the first listed day is its January 1 and the last
      its December 31 (both in that year, by `FirstAndLastDays`). */
  lemma DatesInOtherYear(year: int, now: Day, end: Day, count: nat)
    requires year >= 100 && year != Year(now)
    requires end == YearEnd(year, now) && count == YearCount(year, now)
    ensures count == YearLength(year)
    ensures end - count + 1 == DaysBeforeYear(year) && end == DaysBeforeYear(year + 1) - 1
  {
    LastDayOfYear(year);
    YearStep(year);
    OtherYearSpan(year, now, DaysBeforeYear(year), DaysBeforeYear(year + 1) - 1);
  }

  /** January 1 and December 31 of a year are in that year. */
  lemma FirstAndLastDays(year: int, first: Day, last: Day)
    requires first == DaysBeforeYear(year) && last == DaysBeforeYear(year + 1) - 1
    ensures Year(first) == year && Year(last) == year
  {
    YearStep(year);
    YearOfDayIn(first, year);
    YearOfDayIn(last, year);
  }

  /** January 1 of the current year, from the year 100 on, is no later
      than today. */
  lemma JanFirstBeforeNow(year: int, now: Day)
    requires year >= 100 && year == Year(now)
    ensures MakeLocalDate(year, 0, 1) == DaysBeforeYear(year) <= now
  {
    JanFirstOf(year);
    DayInYear(now);
  }

  /** The current year lists the days from `new Date(year, 0, 1)` to
      today, and as written one more after midnight. */
  lemma CurrentYearSpan(year: int, now: Day, msIntoDay: nat, jan1: Day)
    requires year == Year(now) && jan1 == MakeLocalDate(year, 0, 1) && jan1 <= now
    requires msIntoDay < MsPerDay
    ensures YearEnd(year, now) == now && YearCount(year, now) == now - jan1 + 1
    ensures YearCountAsWritten(year, now, msIntoDay) == now - jan1 + (if msIntoDay > 0 then 2 else 1)
  {
  }

  /** The current year, from the year 100 on, lists January 1 through
      today. */
  lemma DatesInCurrentYear(year: int, now: Day, end: Day, count: nat)
    requires year >= 100 && year == Year(now)
    requires end == YearEnd(year, now) && count == YearCount(year, now)
    ensures end == now && end - count + 1 == DaysBeforeYear(year)
  {
    JanFirstBeforeNow(year, now);
    CurrentYearSpan(year, now, 0, DaysBeforeYear(year));
  }

  /** The day before January 1 is in the year before. */
  lemma DayBeforeNewYear(year: int, d: Day)
    requires d == DaysBeforeYear(year) - 1
    ensures Year(d) == year - 1
  {
    YearStep(year - 1);
    YearOfDayIn(d, year - 1);
  }

  /** As written, after midnight the current year's list holds one day
      more than the corrected one, and starts on the day before January 1,
      which `DayBeforeNewYear` places in the year before. */
  lemma DatesInYearStartsADayEarly(year: int, now: Day, msIntoDay: nat, end: Day, count: nat)
    requires year >= 100 && year == Year(now) && 0 < msIntoDay < MsPerDay
    requires end == YearEnd(year, now) && count == YearCountAsWritten(year, now, msIntoDay)
    ensures count == YearCount(year, now) + 1
    ensures end - count + 1 == DaysBeforeYear(year) - 1
  {
    JanFirstBeforeNow(year, now);
    CurrentYearSpan(year, now, msIntoDay, DaysBeforeYear(year));
  }

  /** At midnight exactly, the as-written list is the corrected one. */
  lemma DatesInYearAtMidnight(year: int, now: Day)
    ensures DatesInYearAsWritten(year, now, 0) == DatesInYear(year, now)
  {
  }

  // ----- month labels -----

  /** The month text of a label: none, the short English name of month
      `monthIndex` (0 = January), or "Invalid Date" for a string that does
      not parse. */
  datatype MonthText = Blank | ShortMonth(monthIndex: int) | InvalidDate

  datatype MonthLabel = MonthLabel(visible: bool, month: MonthText)

  /** `getMonthLabelForWeek(week)`: the label is shown when the week's
      first day is one of the first seven days of its month. */
  function GetMonthLabelForWeek(week: seq<string>): MonthLabel {
    if |week| == 0 || week[0] == "" then MonthLabel(false, Blank)
    else match ParseDateStringLocal(week[0])
      case None => MonthLabel(false, InvalidDate)
      case Some(d) => MonthLabel(DayOfMonth(d) < 8, ShortMonth(Month0(d)))
  }

  /** A day is one of the first seven of its month exactly when the day a
      week earlier lies in an earlier month. */
  lemma FirstWeekOfMonth(d: Day, a: int, b: int)
    requires a == MonthIndex(d) && b == MonthIndex(d - 7)
    ensures DayOfMonth(d) < 8 <==> b < a
  {
    MonthIndexBounds(d, a, a + 1);
    MonthIndexBounds(d - 7, b, b + 1);
    MonthStartBefore(a, d - 7);
    MonthStartBefore(b, d);
  }

  /** For a week whose first string is the date of day `d` (from the year
      100 on), the label names the month of `d` and is shown exactly when
      the week before began in an earlier month: each month is labelled on
      the first week column that starts in it. */
  lemma MonthLabelMarksNewMonth(week: seq<string>, d: Day)
    requires |week| > 0 && week[0] == ToDateStringLocal(d) && Year(d) >= 100
    ensures GetMonthLabelForWeek(week).month == ShortMonth(Month0(d))
    ensures GetMonthLabelForWeek(week).visible <==> MonthIndex(d - 7) < MonthIndex(d)
  {
    ParseFormat(d);
    assert |IntToString(Year(d))| >= 1;
    FirstWeekOfMonth(d, MonthIndex(d), MonthIndex(d - 7));
  }

  /** A week with no first date, or an unreadable one, shows no label. */
  lemma MonthLabelHidden(week: seq<string>)
    requires |week| == 0 || week[0] == "" || ParseDateStringLocal(week[0]).None?
    ensures !GetMonthLabelForWeek(week).visible
    ensures !GetMonthLabelForWeek(week).month.ShortMonth?
  {
  }

  // ----- the navigable years -----

  /** `parseDateStringLocal(date).getFullYear()`, with NaN as None. */
  function YearOfDate(s: string): Option<int> {
    match ParseDateStringLocal(s)
      case None => None
      case Some(d) => Some(Year(d))
  }

  /** `Math.min(a, b)` where None is NaN: NaN wins. */
  function JsMin(a: Option<int>, b: Option<int>): Option<int> {
    if a.None? || b.None? then None
    else Some(if a.value <= b.value then a.value else b.value)
  }

  /** `Math.min(...xs)` over a non-empty list of numbers, NaN as None. */
  function JsMinOf(xs: seq<Option<int>>): Option<int>
    requires |xs| > 0
    decreases |xs|
  {
    if |xs| == 1 then xs[0] else JsMin(xs[0], JsMinOf(xs[1..]))
  }

  /** The minimum is a number exactly when every entry is, and is then a
      lower bound of the entries that one of them attains. */
  lemma {:induction false} JsMinOfSpec(xs: seq<Option<int>>)
    requires |xs| > 0
    ensures JsMinOf(xs).Some? <==> forall i :: 0 <= i < |xs| ==> xs[i].Some?
    ensures JsMinOf(xs).Some? ==>
      (forall i :: 0 <= i < |xs| ==> JsMinOf(xs).value <= xs[i].value) &&
      exists i :: 0 <= i < |xs| && JsMinOf(xs).value == xs[i].value
    decreases |xs|
  {
    if |xs| > 1 {
      var tail := xs[1..];
      JsMinOfSpec(tail);
      if JsMinOf(xs).Some? {
        var m := JsMinOf(tail).value;
        var k :| 0 <= k < |tail| && m == tail[k].value;
        if JsMinOf(xs).value == m {
          assert xs[k + 1] == tail[k];
        } else {
          assert JsMinOf(xs).value == xs[0].value;
        }
      } else if xs[0].Some? {
        var j :| 0 <= j < |tail| && tail[j].None?;
        assert xs[j + 1] == tail[j];
      }
    }
  }

  /** `Math.min(...habitDates.map(date => year of date))`. */
  function MinYear(dates: seq<string>): Option<int>
    requires |dates| > 0
  {
    JsMinOf(Map(YearOfDate, dates))
  }

  /** The years the calendar may show, with NaN as a None lower end. */
  datatype YearRange = YearRange(minYear: Option<int>, maxYear: int)

  /** `getYearRange(habitDates, currentYear, isEditMode)`: from the
      earliest year of the history (or this year when it is empty), and in
      edit mode at least ten years back, up to this year. */
  function GetYearRange(habitDates: seq<string>, currentYear: int, isEditMode: bool): YearRange {
    var minYear := if |habitDates| > 0 then MinYear(habitDates) else Some(currentYear);
    var effective := if isEditMode then JsMin(minYear, Some(currentYear - 10)) else minYear;
    YearRange(effective, currentYear)
  }

  /** When every date reads, the range starts no later than any date's
      year, and in edit mode no later than ten years ago; it starts at one
      of those years (or this year, for an empty history outside edit
      mode), and ends this year. A date that does not read makes the start
      NaN. */
  lemma YearRangeBounds(habitDates: seq<string>, currentYear: int, isEditMode: bool)
    ensures GetYearRange(habitDates, currentYear, isEditMode).maxYear == currentYear
    ensures var r := GetYearRange(habitDates, currentYear, isEditMode);
      r.minYear.Some? <==> forall i :: 0 <= i < |habitDates| ==> YearOfDate(habitDates[i]).Some?
    ensures var r := GetYearRange(habitDates, currentYear, isEditMode);
      r.minYear.Some? ==>
        (forall i :: 0 <= i < |habitDates| ==> r.minYear.value <= YearOfDate(habitDates[i]).value) &&
        (isEditMode ==> r.minYear.value <= currentYear - 10) &&
        ((exists i :: 0 <= i < |habitDates| && r.minYear.value == YearOfDate(habitDates[i]).value) ||
         (isEditMode && r.minYear.value == currentYear - 10) ||
         (!isEditMode && habitDates == [] && r.minYear.value == currentYear))
  {
    if |habitDates| > 0 {
      var years := Map(YearOfDate, habitDates);
      JsMinOfSpec(years);
      assert forall i :: 0 <= i < |habitDates| ==> years[i] == YearOfDate(habitDates[i]);
    }
  }

  // ----- the alpha of an rgba colour -----

  /** A character the pattern `[\d.]` accepts. */
  predicate IsAlphaChar(c: char) { IsDigit(c) || c == '.' }

  /** The length of the longest run of `[\d.]` characters ending `s`. */
  function AlphaSuffixLength(s: string): (k: nat)
    ensures k <= |s|
    ensures forall i :: |s| - k <= i < |s| ==> IsAlphaChar(s[i])
    ensures k < |s| ==> !IsAlphaChar(s[|s| - k - 1])
    decreases |s|
  {
    if s == [] || !IsAlphaChar(s[|s| - 1]) then 0
    else AlphaSuffixLength(s[..|s| - 1]) + 1
  }

  /** The pattern `rgba\([^)]+, ([\d.]+)\)` tried at position `p`, where
      "rgba(" occurs: `[^)]+` runs at most to the first ")" after it, and
      backs off to the ", " before the `[\d.]` run that ends there. The
      captured run, or None when the pattern does not match here. */
  function MatchAlphaAt(s: string, p: nat): Option<string>
    requires MatchAt(s, "rgba(", p)
  {
    match IndexFrom(s, ")", p + 5)
      case None => None
      case Some(q) => CaptureAlpha(s[p + 5..q])
  }

  /** `[^)]+, ([\d.]+)` against the whole text `body` between "rgba(" and
      the first ")": the `[\d.]` run ending `body`, when ", " and at least
      one more character come before it. */
  function CaptureAlpha(body: string): Option<string> {
    var k := AlphaSuffixLength(body);
    var head := body[..|body| - k];
    if k > 0 && |head| >= 3 && head[|head| - 2..] == ", " then Some(body[|body| - k..]) else None
  }

  /** `color.match(...)`: the pattern tried at each "rgba(" from `from` on,
      the first match winning. */
  function AlphaMatch(s: string, from: nat): Option<string>
    decreases |s| - from
  {
    match IndexFrom(s, "rgba(", from)
      case None => None
      case Some(p) =>
        match MatchAlphaAt(s, p)
          case Some(run) => Some(run)
          case None => AlphaMatch(s, p + 1)
  }

  /** The number of leading decimal digits of `s`. */
  function DigitPrefixLength(s: string): (k: nat)
    ensures k <= |s| && AllDigits(s[..k])
    ensures k < |s| ==> !IsDigit(s[k])
    decreases |s|
  {
    if s == [] || !IsDigit(s[0]) then 0
    else
      var k := DigitPrefixLength(s[1..]) + 1;
      assert s[..k] == [s[0]] + s[1..][..k - 1];
      k
  }

  /** 10 to the power `n`. */
  function Pow10(n: nat): (r: real)
    ensures r >= 1.0
  {
    if n == 0 then 1.0 else 10.0 * Pow10(n - 1)
  }

  /** The digits before and after the dot that `parseFloat` reads from
      the front of a run of digits and dots. */
  function DecimalParts(s: string): (r: (string, string))
    ensures AllDigits(r.0) && AllDigits(r.1)
  {
    var i := DigitPrefixLength(s);
    var rest := s[i..];
    if rest != [] && rest[0] == '.' then (s[..i], rest[1..][..DigitPrefixLength(rest[1..])])
    else (s[..i], [])
  }

  /** `parseFloat` of a run of digits and dots: the longest prefix of the
      form digits, then optionally a dot and more digits, with at least one
      digit; None (NaN) when there is none. */
  function ParseDecimal(s: string): Option<real> {
    var parts := DecimalParts(s);
    if parts.0 == [] && parts.1 == [] then None
    else Some(DecimalValue(parts.0, parts.1))
  }

  /** The value of the decimal `whole.fraction`. */
  function DecimalValue(whole: string, fraction: string): (v: real)
    requires AllDigits(whole) && AllDigits(fraction)
    ensures v >= 0.0
  {
    DigitsValue(whole) as real + DigitsValue(fraction) as real / Pow10(|fraction|)
  }

  /** `extractAlpha(color)`: the number after the last ", " of an
      `rgba(...)` colour, 1 when the colour has no such form; None is
      NaN. */
  function ExtractAlpha(color: string): Option<real> {
    match AlphaMatch(color, 0)
      case None => Some(1.0)
      case Some(run) => ParseDecimal(run)
  }

  /** A colour with no "rgba(" in it has alpha 1. */
  lemma ExtractAlphaDefault(color: string)
    requires IndexOf(color, "rgba(").None?
    ensures ExtractAlpha(color) == Some(1.0)
  {
  }

  /** A whole and a fractional run of digits joined by a dot split back
      into the two runs. */
  lemma DecimalPartsOf(whole: string, fraction: string)
    requires AllDigits(whole) && AllDigits(fraction)
    ensures DecimalParts(whole + "." + fraction) == (whole, fraction)
  {
    var s := whole + "." + fraction;
    DigitPrefixAll(whole, "." + fraction);
    assert s[..|whole|] == whole;
    var rest := s[|whole|..];
    assert rest == "." + fraction;
    assert rest[1..] == fraction + [];
    DigitPrefixAll(fraction, []);
    assert fraction[..|fraction|] == fraction;
  }

  /** ... and read back as their decimal value. */
  lemma ParseDecimalOf(whole: string, fraction: string)
    requires AllDigits(whole) && AllDigits(fraction) && |whole| > 0
    ensures ParseDecimal(whole + "." + fraction) == Some(DecimalValue(whole, fraction))
  {
    DecimalPartsOf(whole, fraction);
  }

  /** The digit prefix of a run of digits followed by a non-digit (or
      nothing) is that run. */
  lemma {:induction false} DigitPrefixAll(digits: string, rest: string)
    requires AllDigits(digits) && (rest == [] || !IsDigit(rest[0]))
    ensures DigitPrefixLength(digits + rest) == |digits|
    decreases |digits|
  {
    if digits != [] {
      assert (digits + rest)[1..] == digits[1..] + rest;
      DigitPrefixAll(digits[1..], rest);
    }
  }

  /** A run of `[\d.]` characters after a character outside the run is
      the whole run the pattern captures at the end. */
  lemma {:induction false} AlphaSuffixOf(h: string, t: string)
    requires h != [] && !IsAlphaChar(h[|h| - 1])
    requires forall i :: 0 <= i < |t| ==> IsAlphaChar(t[i])
    ensures AlphaSuffixLength(h + t) == |t|
    decreases |t|
  {
    if t == [] {
      assert h + t == h;
    } else {
      var t' := t[..|t| - 1];
      assert (h + t)[..|h + t| - 1] == h + t';
      AlphaSuffixOf(h, t');
    }
  }

  /** No ")" in x + ", " + run when there is none in x and run holds
      only `[\d.]` characters. */
  lemma NoCloseParen(x: string, run: string, m: string)
    requires m == x + ", " + run
    requires forall i :: 0 <= i < |x| ==> x[i] != ')'
    requires forall i :: 0 <= i < |run| ==> IsAlphaChar(run[i])
    ensures forall i :: 0 <= i < |m| ==> m[i] != ')'
  {
    forall i | 0 <= i < |m|
      ensures m[i] != ')'
    {
      if i < |x| {
        assert m[i] == x[i];
      } else if i >= |x| + 2 {
        assert m[i] == run[i - |x| - 2];
      }
    }
  }

  /** In "rgba(" + m + ")", with no ")" in m, the first ")" after
      "rgba(" is the last character. */
  lemma CloseParenAtEnd(s: string, m: string)
    requires s == "rgba(" + m + ")"
    requires forall i :: 0 <= i < |m| ==> m[i] != ')'
    ensures IndexFrom(s, ")", 5) == Some(|s| - 1)
    ensures s[5..|s| - 1] == m
  {
    assert s[5..|s| - 1] == m;
    forall j | 5 <= j < |s| - 1
      ensures !MatchAt(s, ")", j)
    {
      assert s[j] == s[5..|s| - 1][j - 5];
      assert s[j..j + 1] == [s[j]];
    }
    assert s[|s| - 1..|s|] == ")";
    IndexFromFirst(s, ")", 5, |s| - 1);
  }

  /** When the text between "rgba(" and the first ")" is `head + run`,
      with `head` ending in ", " after at least one character and `run`
      the whole `[\d.]` run at the end, the pattern captures `run`. */
  lemma CaptureAlphaOf(head: string, run: string)
    requires |run| > 0 && AlphaSuffixLength(head + run) == |run|
    requires |head| >= 3 && head[|head| - 2..] == ", "
    ensures CaptureAlpha(head + run) == Some(run)
  {
    var body := head + run;
    assert body[..|body| - |run|] == head && body[|body| - |run|..] == run;
  }

  /** The pattern matches "rgba(" + x + ", " + run + ")" at its start and
      captures `run`. */
  lemma AlphaMatchOfRgba(x: string, run: string)
    requires x != [] && forall i :: 0 <= i < |x| ==> x[i] != ')'
    requires run != [] && forall i :: 0 <= i < |run| ==> IsAlphaChar(run[i])
    ensures AlphaMatch("rgba(" + x + ", " + run + ")", 0) == Some(run)
  {
    var s := "rgba(" + x + ", " + run + ")";
    var head := x + ", ";
    var m := head + run;
    assert s == "rgba(" + m + ")";
    assert s[0..5] == "rgba(";
    IndexFromFirst(s, "rgba(", 0, 0);
    NoCloseParen(x, run, m);
    CloseParenAtEnd(s, m);
    AlphaSuffixOf(head, run);
    assert head[|head| - 2..] == ", ";
    CaptureAlphaOf(head, run);
  }

  /** `extractAlpha` of an rgba colour whose last part is a decimal
      `whole.fraction` is the value of that decimal. */
  lemma ExtractAlphaOfRgba(x: string, whole: string, fraction: string)
    requires x != [] && forall i :: 0 <= i < |x| ==> x[i] != ')'
    requires AllDigits(whole) && AllDigits(fraction) && |whole| > 0
    ensures ExtractAlpha("rgba(" + x + ", " + whole + "." + fraction + ")") == Some(DecimalValue(whole, fraction))
  {
    var run := whole + "." + fraction;
    assert forall i :: 0 <= i < |run| ==> IsAlphaChar(run[i]) by {
      forall i | 0 <= i < |run|
        ensures IsAlphaChar(run[i])
      {
        if i < |whole| {
          assert run[i] == whole[i];
        } else if i > |whole| {
          assert run[i] == fraction[i - |whole| - 1];
        }
      }
    }
    assert "rgba(" + x + ", " + whole + "." + fraction + ")" == "rgba(" + x + ", " + run + ")";
    AlphaMatchOfRgba(x, run);
    ParseDecimalOf(whole, fraction);
  }

  // ----- the colour of a cell -----

  /** The colour of a cell with nothing done. */
  const NoCompletionColor := "var(--color-gray-200)"

  /** The opacity `getColorIntensity` gives a cell: none (grey) for a zero
      value, 0.3 under half the target, 0.5 under the target, 0.7 from the
      target on. */
  function IntensityAlpha(value: real, target: real): Option<real> {
    if value == 0.0 then None
    else if value < target / 2.0 then Some(0.3)
    else if value < target then Some(0.5)
    else Some(0.7)
  }

  /** `getColorIntensity(value, target, color, addAlpha)`. */
  function GetColorIntensity(value: real, target: real, color: string, addAlpha: (string, real) -> string): string {
    match IntensityAlpha(value, target)
      case None => NoCompletionColor
      case Some(alpha) => addAlpha(color, alpha)
  }

  /** The cell is grey exactly for a zero value; any other value reaching
      a non-negative target gets the strongest opacity, and a positive
      value under the target a weaker one. */
  lemma IntensityLevels(value: real, target: real)
    ensures IntensityAlpha(value, target).None? <==> value == 0.0
    ensures value != 0.0 && target >= 0.0 && value >= target ==> IntensityAlpha(value, target) == Some(0.7)
    ensures 0.0 < value < target ==> IntensityAlpha(value, target).Some? && IntensityAlpha(value, target).value < 0.7
  {
  }

  /** More done never makes a (non-grey) cell fainter. */
  lemma IntensityMonotone(v1: real, v2: real, target: real)
    requires v1 != 0.0 && v2 != 0.0 && v1 <= v2
    ensures IntensityAlpha(v1, target).value <= IntensityAlpha(v2, target).value
  {
  }
}
