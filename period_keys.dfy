/** Period keys and labels of the history chart
    (src/components/Widgets/HistoryWidget/helpers.ts): a day is put into a
    week, month, quarter or year bucket, the bucket is spelled as a key
    string, and keys are read back to build the axis labels. */
module PeriodKeys {
  import opened Wrappers
  import opened Civil
  import opened Text
  import opened Dates

  /** The `Grouping` union `"week" | "month" | "quarter" | "year"`. */
  datatype Grouping = ByWeek | ByMonth | ByQuarter | ByYear

  /** A bucket before it is spelled as a key. */
  datatype Period =
    | WeekOf(year: int, week: int)
    | MonthOf(year: int, month: int)
    | QuarterOf(year: int, quarter: int)
    | YearOf(year: int)

  /** `new Date(year, 0, 1)`. */
  function JanFirst(year: int): Day {
    MakeLocalDate(year, 0, 1)
  }

  /** The week number of `getWeekKey`: the ceiling of (days since January 1
      + weekday of January 1 + 1) / 7. Floor division of n + 6 by 7 is the
      ceiling of n / 7. */
  function WeekNumber(d: Day): int {
    var jan1 := JanFirst(Year(d));
    (d - jan1 + Weekday(jan1) + 1 + 6) / 7
  }

  /** The bucket `getPeriodKey` puts a day in. */
  function PeriodOf(d: Day, g: Grouping): Period {
    match g
    case ByWeek => WeekOf(Year(d), WeekNumber(d))
    case ByMonth => MonthOf(Year(d), Month0(d) + 1)
    case ByQuarter => QuarterOf(Year(d), Month0(d) / 3 + 1)
    case ByYear => YearOf(Year(d))
  }

  /** The key string of a bucket: `YYYY-Wn`, `YYYY-MM`, `YYYY-Qn` or `YYYY`. */
  function KeyText(p: Period): string {
    match p
    case WeekOf(y, w) => IntToString(y) + "-W" + IntToString(w)
    case MonthOf(y, m) => IntToString(y) + "-" + PadStart2(IntToString(m))
    case QuarterOf(y, q) => IntToString(y) + "-Q" + IntToString(q)
    case YearOf(y) => IntToString(y)
  }

  /** How `getWeekLabel` reads a week key: split at `-W` and convert both
      halves with `Number`. A missing half is `undefined` and converts to
      NaN, as does a non-numeric one (None). */
  function ParseWeekKey(key: string): WeekKeyParts {
    var parts := SplitOn(key, "-W");
    WeekKeyParts(NumberOf(parts[0]), if |parts| >= 2 then NumberOf(parts[1]) else None)
  }

  datatype WeekKeyParts = WeekKeyParts(year: Option<int>, week: Option<int>)

  /** Reads a key of one grouping back into its bucket; week keys are read
      the way `getWeekLabel` reads them. */
  function ReadKey(s: string, g: Grouping): Option<Period> {
    match g
    case ByWeek =>
      var WeekKeyParts(y, w) := ParseWeekKey(s);
      if y.Some? && w.Some? then Some(WeekOf(y.value, w.value)) else None
    case ByMonth =>
      var parts := SplitOn(s, "-");
      if |parts| != 2 then None
      else
        (match (NumberOf(parts[0]), NumberOf(parts[1]))
         case (Some(y), Some(m)) => Some(MonthOf(y, m))
         case _ => None)
    case ByQuarter =>
      var parts := SplitOn(s, "-Q");
      if |parts| != 2 then None
      else
        (match (NumberOf(parts[0]), NumberOf(parts[1]))
         case (Some(y), Some(q)) => Some(QuarterOf(y, q))
         case _ => None)
    case ByYear =>
      match NumberOf(s)
      case Some(y) => Some(YearOf(y))
      case None => None
  }

  /** The buckets whose keys read back: any week, quarter or year, and a
      month of a year that is not negative (its minus sign would be taken
      for the separator) with a month number below 100. */
  predicate Readable(p: Period) {
    p.MonthOf? ==> p.year >= 0 && 0 <= p.month < 100
  }

  function GroupingOf(p: Period): Grouping {
    match p
    case WeekOf(_, _) => ByWeek
    case MonthOf(_, _) => ByMonth
    case QuarterOf(_, _) => ByQuarter
    case YearOf(_) => ByYear
  }

  lemma WeekKeyReads(y: int, w: int)
    ensures ParseWeekKey(KeyText(WeekOf(y, w))) == WeekKeyParts(Some(y), Some(w))
  {
    var a, b := IntToString(y), IntToString(w);
    assert KeyText(WeekOf(y, w)) == a + "-W" + b;
    SplitAfterInt(y, "-W", b);
    IntAlone(w, "-W");
    NumberOfIntToString(y);
    NumberOfIntToString(w);
  }

  lemma MonthKeySplits(y: int, m: int)
    requires y >= 0 && 0 <= m < 100
    ensures SplitOn(KeyText(MonthOf(y, m)), "-") == [IntToString(y), PadStart2(IntToString(m))]
    ensures NumberOf(IntToString(y)) == Some(y) && NumberOf(PadStart2(IntToString(m))) == Some(m)
    ensures AllDigits(IntToString(y)) && AllDigits(PadStart2(IntToString(m)))
  {
    var a, b := IntToString(y), PadStart2(IntToString(m));
    assert KeyText(MonthOf(y, m)) == a + "-" + b;
    MonthKeyDigits(y, m, a, b);
    SplitTwo(a, b);
  }

  /** The year and the padded month of a month key are digit strings of their values. */
  lemma MonthKeyDigits(y: int, m: int, a: string, b: string)
    requires y >= 0 && 0 <= m < 100
    requires a == IntToString(y) && b == PadStart2(IntToString(m))
    ensures AllDigits(a) && AllDigits(b) && DigitsValue(a) == y && DigitsValue(b) == m
  {
    PadStart2RoundTrip(m);
    NumberOfIntToString(y);
  }

  lemma QuarterKeySplits(y: int, q: int)
    ensures SplitOn(KeyText(QuarterOf(y, q)), "-Q") == [IntToString(y), IntToString(q)]
  {
    var a, b := IntToString(y), IntToString(q);
    assert KeyText(QuarterOf(y, q)) == a + "-Q" + b;
    SplitAfterInt(y, "-Q", b);
    IntAlone(q, "-Q");
  }

  /** Every readable key reads back as the bucket it was made from. */
  lemma KeyRoundTrip(p: Period)
    requires Readable(p)
    ensures ReadKey(KeyText(p), GroupingOf(p)) == Some(p)
  {
    match p
    case WeekOf(y, w) =>
      WeekKeyReads(y, w);
    case MonthOf(y, m) =>
      MonthKeySplits(y, m);
    case QuarterOf(y, q) =>
      QuarterKeySplits(y, q);
      NumberOfIntToString(y);
      NumberOfIntToString(q);
    case YearOf(y) =>
      NumberOfIntToString(y);
  }

  /** `getPeriodKey(date, grouping)`. */
  function GetPeriodKey(d: Day, g: Grouping): string {
    KeyText(PeriodOf(d, g))
  }

  /** From year 0 on a day's key reads back as the day's bucket. */
  lemma PeriodKeyReadsBack(d: Day, g: Grouping)
    requires Year(d) >= 0
    ensures ReadKey(GetPeriodKey(d, g), g) == Some(PeriodOf(d, g))
  {
    KeyRoundTrip(PeriodOf(d, g));
  }

  /** So two days from year 0 on share a key exactly when they share a
      bucket. */
  lemma PeriodKeyInjective(d: Day, e: Day, g: Grouping)
    requires Year(d) >= 0 && Year(e) >= 0
    ensures GetPeriodKey(d, g) == GetPeriodKey(e, g) <==> PeriodOf(d, g) == PeriodOf(e, g)
  {
    PeriodKeyReadsBack(d, g);
    PeriodKeyReadsBack(e, g);
  }

  // ----- week numbers -----

  /** January 1 of a year from 100 on, and the days of that year. */
  lemma JanFirstBounds(d: Day)
    requires Year(d) >= 100
    ensures JanFirst(Year(d)) == DaysBeforeYear(Year(d))
    ensures 0 <= d - JanFirst(Year(d)) < YearLength(Year(d))
  {
    JanFirstOf(Year(d));
    DayInYear(d);
  }

  lemma WeekStepArith(d: int, jan1: int)
    ensures (d + 1 - jan1 + (jan1 + 4) % 7 + 1 + 6) / 7
      == (d - jan1 + (jan1 + 4) % 7 + 1 + 6) / 7 + (if (d + 1 + 4) % 7 == 0 then 1 else 0)
  {
    var n := d - jan1 + (jan1 + 4) % 7 + 1;
    assert n % 7 == (d + 5) % 7;
  }

  /** Week numbers run from 1 to 54: January 1 is in week 1 and the last
      day of a leap year that starts on a Saturday is in week 54. */
  lemma WeekNumberBounds(d: Day)
    requires Year(d) >= 100
    ensures 1 <= WeekNumber(d) <= 54
  {
    JanFirstBounds(d);
  }

  /** January 1 is always in week 1, whatever its weekday, so week 1 is
      not the week 1 of ISO 8601. */
  lemma WeekNumberOfJanFirst(y: int)
    requires y >= 100
    ensures Year(JanFirst(y)) == y && WeekNumber(JanFirst(y)) == 1
  {
    JanFirstOf(y);
    YearOfDayIn(JanFirst(y), y);
  }

  /** Inside a year the week number goes up by one exactly on Sundays: the
      weeks run Sunday to Saturday. */
  lemma WeekNumberStep(d: Day)
    requires Year(d) >= 100 && Year(d + 1) == Year(d)
    ensures WeekNumber(d + 1) == WeekNumber(d) + (if Weekday(d + 1) == 0 then 1 else 0)
  {
    var y := Year(d);
    var jan1 := JanFirst(y);
    WeekNumberIn(d, y, jan1);
    WeekNumberIn(d + 1, y, jan1);
    WeekStepArith(d, jan1);
  }

  /** The week number of a day of year `y`, counted from January 1 of `y`. */
  lemma WeekNumberIn(d: Day, y: int, jan1: Day)
    requires Year(d) == y && JanFirst(y) == jan1
    ensures WeekNumber(d) == (d - jan1 + Weekday(jan1) + 7) / 7
  {
  }

  /** `getFirstDayOfWeek(year, week, startDayOfWeek)`: the first day on or
      after January 1 that falls on the start weekday, moved on by
      `week - 1` weeks. */
  function FirstDayOfWeek(year: int, week: int, startDay: int): (r: Day)
    requires 0 <= startDay < 7
    ensures Weekday(r) == startDay
    ensures 0 <= r - 7 * (week - 1) - JanFirst(year) < 7
  {
    var jan1 := JanFirst(year);
    var offset := JsRem(startDay - Weekday(jan1) + 7, 7);
    var k := week - 1;
    WeekdayShift(jan1, offset + 7 * k);
    ShiftToWeekday(Weekday(jan1), startDay, offset, k);
    jan1 + offset + 7 * k
  }

  /** Moving on from weekday `w0` by the offset to weekday `s` and then by
      whole weeks lands on weekday `s`. */
  lemma ShiftToWeekday(w0: int, s: int, offset: int, k: int)
    requires 0 <= w0 < 7 && 0 <= s < 7 && offset == (s - w0 + 7) % 7
    ensures (w0 + (offset + 7 * k)) % 7 == s && 0 <= offset < 7
  {
  }

  // ----- labels -----

  /** An axis label. Month names depend on the locale, so a label that
      shows one keeps the month index; None stands for "Invalid Date". */
  datatype Label =
    | Plain(text: string)                               // the text itself
    | YearAndMonth(year: string, month: Option<int>)    // `<year> <short month>`
    | MonthAndYear(month: Option<int>, yy: string)      // `<short month> '<yy>`
    | DayOfMonthLabel(day: int)                         // the day of the month

  /** `s.slice(-2)`. */
  function LastTwo(s: string): string {
    if |s| >= 2 then s[|s| - 2..] else s
  }

  /** `String(n)` of a number read with `Number`. */
  function NumberText(n: Option<int>): string {
    match n
    case Some(v) => IntToString(v)
    case None => "NaN"
  }

  /** `getPeriodLabel(key, grouping)`. A week key has its first `-`
      replaced by ` W`; a month key `Y-M` is shown as its year and the
      short name of the month of the local date `Y-M-01`; a quarter key has
      its first `-` replaced by a space; a year key is itself. */
  function GetPeriodLabel(key: string, g: Grouping): Label {
    match g
    case ByWeek => Plain(ReplaceFirst(key, "-", " W"))
    case ByMonth =>
      var parts := SplitOn(key, "-");
      var month := if |parts| >= 2 then parts[1] else "undefined";
      var date := ParseDateStringLocal(parts[0] + "-" + month + "-01");
      YearAndMonth(parts[0], if date.Some? then Some(Month0(date.value)) else None)
    case ByQuarter => Plain(ReplaceFirst(key, "-", " "))
    case ByYear => Plain(key)
  }

  lemma ReplaceAfterYear(y: int, rest: string, replacement: string)
    requires y >= 0
    ensures ReplaceFirst(IntToString(y) + "-" + rest, "-", replacement) == IntToString(y) + replacement + rest
  {
    var a := IntToString(y);
    var s := a + "-" + rest;
    NoCharMatch(a, '-', rest);
    assert s[|a|..|a| + 1] == "-";
    IndexFromFirst(s, "-", 0, |a|);
    assert s[..|a|] == a && s[|a| + 1..] == rest;
  }

  lemma LeadingZeroOne()
    ensures AllDigits("01") && NumberOf("01") == Some(1)
  {
    assert "01"[..1] == "0" && "0"[..0] == [];
  }

  /** `new Date(y, m - 1, 1)` falls in month `m - 1`, whatever the year. */
  lemma MonthOfLocalDate(y: int, m: int)
    requires 1 <= m <= 12
    ensures Month0(MakeLocalDate(y, m - 1, 1)) == m - 1
  {
    var yy := if 0 <= y <= 99 then 1900 + y else y;
    var a := 12 * yy + (m - 1);
    assert MakeLocalDate(y, m - 1, 1) == MonthStart(a);
    MonthIndexSplit(yy, m - 1, a);
    MonthOfStart(a, m - 1);
  }

  /** The date string `Y-MM-01` built from a month key reads as the first
      of that month. */
  lemma ParseMonthStart(y: int, m: int)
    requires y >= 0 && 1 <= m <= 12
    ensures ParseDateStringLocal(IntToString(y) + "-" + PadStart2(IntToString(m)) + "-01")
      == Some(MakeLocalDate(y, m - 1, 1))
  {
    var a, b := IntToString(y), PadStart2(IntToString(m));
    MonthKeyDigits(y, m, a, b);
    LeadingZeroOne();
    ParseDigitParts(a, b, "01", y, m, 1);
    assert a + "-" + b + "-01" == a + "-" + b + "-" + "01";
  }

  /** The month label of a month key names that month of that year. */
  lemma MonthLabel(y: int, m: int)
    requires y >= 0 && 1 <= m <= 12
    ensures GetPeriodLabel(KeyText(MonthOf(y, m)), ByMonth) == YearAndMonth(IntToString(y), Some(m - 1))
  {
    MonthKeySplits(y, m);
    ParseMonthStart(y, m);
    MonthOfLocalDate(y, m);
  }

  /** A quarter key `Y-Qn` is labelled `Y Qn`. */
  lemma QuarterLabel(y: int, q: int)
    requires y >= 0
    ensures GetPeriodLabel(KeyText(QuarterOf(y, q)), ByQuarter) == Plain(IntToString(y) + " Q" + IntToString(q))
  {
    var a, b := IntToString(y), IntToString(q);
    var k := KeyText(QuarterOf(y, q));
    assert k == a + "-Q" + b;
    assert a + "-Q" + b == a + "-" + ("Q" + b);
    ReplaceAfterYear(y, "Q" + b, " ");
    assert a + " " + ("Q" + b) == a + " Q" + b;
  }

  /** A week key `Y-Wn` is labelled `Y WWn` by `getPeriodLabel`: the
      replacement keeps the `W` of the key. The chart labels weeks with
      `getWeekLabel` instead. */
  lemma WeekPeriodLabel(y: int, w: int)
    requires y >= 0
    ensures GetPeriodLabel(KeyText(WeekOf(y, w)), ByWeek) == Plain(IntToString(y) + " WW" + IntToString(w))
  {
    var a, b := IntToString(y), IntToString(w);
    var rest := "W" + b;
    WeekKeyText(y, w, a, rest);
    ReplaceAfterYear(y, rest, " W");
    assert a + " W" + rest == a + " WW" + b;
  }

  lemma WeekKeyText(y: int, w: int, a: string, rest: string)
    requires a == IntToString(y) && rest == "W" + IntToString(w)
    ensures KeyText(WeekOf(y, w)) == a + "-" + rest
  {
    assert KeyText(WeekOf(y, w)) == a + "-W" + IntToString(w);
  }

  /** The first day of the week a week key names, or None when either half
      of the key is NaN (an invalid date). */
  function WeekKeyStart(key: string, startDay: int): Option<Day>
    requires 0 <= startDay < 7
  {
    var WeekKeyParts(y, w) := ParseWeekKey(key);
    if y.Some? && w.Some? then Some(FirstDayOfWeek(y.value, w.value, startDay)) else None
  }

  /** `getWeekLabel(key, prevKey, startDayOfWeek)`, with a null `prevKey`
      as None. The first entry, and an entry whose week starts in another
      month or year than the previous one, gets the month and the last two
      digits of the key's year; the others get the day of the month their
      week starts on. An invalid date compares unequal to everything. */
  function GetWeekLabel(key: string, prevKey: Option<string>, startDay: int): (r: Label)
    requires 0 <= startDay < 7
    ensures r.DayOfMonthLabel? <==>
      prevKey.Some? && prevKey.value != "" && WeekKeyStart(key, startDay).Some? && WeekKeyStart(prevKey.value, startDay).Some?
      && SameMonth(WeekKeyStart(key, startDay).value, WeekKeyStart(prevKey.value, startDay).value)
    ensures r.DayOfMonthLabel? ==> r.day == DayOfMonth(WeekKeyStart(key, startDay).value)
    ensures r.MonthAndYear? ==> r.yy == LastTwo(NumberText(ParseWeekKey(key).year))
  {
    var firstDay := WeekKeyStart(key, startDay);
    var monthYear := MonthAndYear(if firstDay.Some? then Some(Month0(firstDay.value)) else None,
                                  LastTwo(NumberText(ParseWeekKey(key).year)));
    if prevKey.None? || prevKey.value == "" then monthYear
    else
      var prevFirstDay := WeekKeyStart(prevKey.value, startDay);
      var isNewMonthOrYear := firstDay.None? || prevFirstDay.None?
        || Month0(firstDay.value) != Month0(prevFirstDay.value)
        || Year(firstDay.value) != Year(prevFirstDay.value);
      if isNewMonthOrYear then monthYear else DayOfMonthLabel(DayOfMonth(firstDay.value))
  }

  predicate SameMonth(d: Day, e: Day) {
    Month0(d) == Month0(e) && Year(d) == Year(e)
  }

  /** Labels of generated week keys: a week starting in the same month as
      the previous week is labelled with its first day of the month, any
      other with that month and the key's year. */
  lemma WeekLabelOfKeys(y: int, w: int, prev: Option<Period>, startDay: int)
    requires 0 <= startDay < 7
    requires prev.Some? ==> prev.value.WeekOf?
    ensures var first := FirstDayOfWeek(y, w, startDay);
      var prevKey := if prev.Some? then Some(KeyText(prev.value)) else None;
      GetWeekLabel(KeyText(WeekOf(y, w)), prevKey, startDay) ==
        if prev.Some? && SameMonth(first, FirstDayOfWeek(prev.value.year, prev.value.week, startDay))
        then DayOfMonthLabel(DayOfMonth(first))
        else MonthAndYear(Some(Month0(first)), LastTwo(IntToString(y)))
  {
    KeyRoundTrip(WeekOf(y, w));
    if prev.Some? {
      KeyRoundTrip(prev.value);
      assert |KeyText(prev.value)| > 0;
    }
  }
}
