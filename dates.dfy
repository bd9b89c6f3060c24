/** Local date strings and runs of consecutive days (src/lib/dates.ts).
    A `Date` at local midnight is a `Day`; the clock reading behind "today"
    is a parameter. */
module Dates {
  import opened Wrappers
  import opened Civil
  import opened Text

  /** `toDateStringLocal`: the local year, then the month and the day of the
      month each padded to two digits, joined by `-`. */
  function ToDateStringLocal(d: Day): string
  {
    var c := FromDay(d);
    IntToString(c.year) + "-" + PadStart2(NatToString(c.month)) + "-" + PadStart2(NatToString(c.day))
  }

  /** For a four-digit year the string has the `full-date` shape of RFC 3339
      section 5.6: `YYYY-MM-DD`, ten characters with dashes at 4 and 7. */
  lemma DateStringShape(d: Day)
    requires 1000 <= Year(d) <= 9999
    ensures var s := ToDateStringLocal(d);
      |s| == 10 && s[4] == '-' && s[7] == '-'
      && AllDigits(s[..4]) && AllDigits(s[5..7]) && AllDigits(s[8..])
  {
    var c := FromDay(d);
    NatSmallLength(c.year);
    PadStart2RoundTrip(c.month);
    PadStart2RoundTrip(c.day);
    var s := ToDateStringLocal(d);
    assert s[..4] == IntToString(c.year);
    assert s[5..7] == PadStart2(NatToString(c.month));
    assert s[8..] == PadStart2(NatToString(c.day));
  }

  lemma NatSmallLength(n: nat)
    requires 1000 <= n <= 9999
    ensures |NatToString(n)| == 4
  {
    assert 100 <= n / 10 <= 999;
    assert 10 <= n / 100 <= 99;
    assert 1 <= n / 1000 <= 9;
  }

  /** `parseDateStringLocal`: split on `-`, convert the first three parts with
      `Number` and build the local date `new Date(y, m - 1, d)`. A missing or
      non-numeric part gives an invalid date (None). */
  function ParseDateStringLocal(s: string): (r: Option<Day>)
    ensures r.Some? ==> |SplitOn(s, "-")| >= 3
  {
    var parts := SplitOn(s, "-");
    if |parts| < 3 then None
    else
      match (NumberOf(parts[0]), NumberOf(parts[1]), NumberOf(parts[2]))
      case (Some(y), Some(m), Some(d)) => Some(MakeLocalDate(y, m - 1, d))
      case _ => None
  }

  lemma NoDash(s: string)
    requires AllDigits(s)
    ensures forall i :: 0 <= i < |s| ==> s[i] != '-'
  {
  }

  /** Three digit strings joined by dashes split back into the three. */
  lemma SplitThree(a: string, b: string, c: string)
    requires AllDigits(a) && AllDigits(b) && AllDigits(c)
    ensures SplitOn(a + "-" + b + "-" + c, "-") == [a, b, c]
  {
    NoDash(a);
    assert a + "-" + b + "-" + c == a + "-" + (b + "-" + c);
    NoCharMatch(a, '-', b + "-" + c);
    SplitAfterFirst(a, "-", b + "-" + c);
    SplitTwo(b, c);
  }

  /** Two digit strings joined by a dash split back into the two. */
  lemma SplitTwo(b: string, c: string)
    requires AllDigits(b) && AllDigits(c)
    ensures SplitOn(b + "-" + c, "-") == [b, c]
  {
    NoDash(b);
    NoDash(c);
    NoCharMatch(b, '-', c);
    SplitAfterFirst(b, "-", c);
    forall j | 0 <= j < |c|
      ensures !MatchAt(c, "-", j)
    {
      assert c[j] != '-';
    }
    SplitNoSeparator(c, "-");
  }

  /** Three digit strings joined by dashes read as the local date they spell. */
  lemma ParseDigitParts(a: string, b: string, c: string, y: int, m: int, d: int)
    requires AllDigits(a) && AllDigits(b) && AllDigits(c)
    requires y == DigitsValue(a) && m == DigitsValue(b) && d == DigitsValue(c)
    ensures ParseDateStringLocal(a + "-" + b + "-" + c) == Some(MakeLocalDate(y, m - 1, d))
  {
    var s := a + "-" + b + "-" + c;
    SplitThree(a, b, c);
    ParseOfParts(s, [a, b, c], y, m, d);
  }

  /** A string splitting into three numbers reads as the local date they give. */
  lemma ParseOfParts(s: string, parts: seq<string>, y: int, m: int, d: int)
    requires parts == SplitOn(s, "-") && |parts| == 3
    requires NumberOf(parts[0]) == Some(y) && NumberOf(parts[1]) == Some(m) && NumberOf(parts[2]) == Some(d)
    ensures ParseDateStringLocal(s) == Some(MakeLocalDate(y, m - 1, d))
  {
  }

  /** Parsing inverts formatting from year 100 on (years 0..99 are read as
      1900..1999 by the `Date` constructor). */
  lemma ParseFormat(d: Day)
    requires Year(d) >= 100
    ensures ParseDateStringLocal(ToDateStringLocal(d)) == Some(d)
  {
    var c := FromDay(d);
    var y := IntToString(c.year);
    var mm := PadStart2(NatToString(c.month));
    var dd := PadStart2(NatToString(c.day));
    PadStart2RoundTrip(c.month);
    PadStart2RoundTrip(c.day);
    NumberOfIntToString(c.year);
    SplitThree(y, mm, dd);
    MakeLocalDateOfValid(c);
  }

  /** Distinct days from year 100 on have distinct date strings, so history
      keys and day numbers determine each other. */
  lemma DateStringInjective(d: Day, e: Day)
    requires Year(d) >= 100 && Year(e) >= 100
    requires ToDateStringLocal(d) == ToDateStringLocal(e)
    ensures d == e
  {
    ParseFormat(d);
    ParseFormat(e);
  }

  /** `todayLocalString` with the clock reading passed in: the string of
      today's local date, which reads back as today. */
  function TodayLocalString(now: Day): (s: string)
    ensures Year(now) >= 100 ==> ParseDateStringLocal(s) == Some(now)
  {
    ParseFormat2(now);
    ToDateStringLocal(now)
  }

  lemma ParseFormat2(d: Day)
    ensures Year(d) >= 100 ==> ParseDateStringLocal(ToDateStringLocal(d)) == Some(d)
  {
    if Year(d) >= 100 {
      ParseFormat(d);
    }
  }

  function Reversed<T>(s: seq<T>): (r: seq<T>)
    ensures |r| == |s|
    ensures forall i :: 0 <= i < |s| ==> r[i] == s[|s| - 1 - i]
  {
    seq(|s|, i requires 0 <= i < |s| => s[|s| - 1 - i])
  }

  /** The days behind `getDatesInRange(start, lengthDays, reverse)`: entry i
      is `start` minus i days, and `reverse` turns the list around so that it
      ascends and ends at `start`. */
  function DaysInRange(start: Day, lengthDays: nat, reverse: bool): (r: seq<Day>)
    ensures |r| == lengthDays
    ensures !reverse ==> forall i :: 0 <= i < lengthDays ==> r[i] == start - i
    ensures reverse ==> forall i :: 0 <= i < lengthDays ==> r[i] == start - lengthDays + 1 + i
  {
    var dates := seq(lengthDays, i => start - i);
    if reverse then Reversed(dates) else dates
  }

  /** `getDatesInRange`: the date strings of `DaysInRange`. */
  function GetDatesInRange(start: Day, lengthDays: nat, reverse: bool): (r: seq<string>)
    ensures |r| == lengthDays
    ensures forall i :: 0 <= i < lengthDays ==> r[i] == ToDateStringLocal(DaysInRange(start, lengthDays, reverse)[i])
  {
    var days := DaysInRange(start, lengthDays, reverse);
    seq(lengthDays, i requires 0 <= i < lengthDays => ToDateStringLocal(days[i]))
  }

  /** The unreversed list starts at `start` and each entry is the calendar day
      before the previous one; the reversed list is the same list backwards. */
  lemma DaysInRangeConsecutive(start: Day, n: nat)
    ensures n > 0 ==> DaysInRange(start, n, false)[0] == start
    ensures n > 0 ==> DaysInRange(start, n, true)[n - 1] == start
    ensures forall i :: 0 < i < n ==> DaysInRange(start, n, false)[i] == DaysInRange(start, n, false)[i - 1] - 1
    ensures forall i :: 0 < i < n ==> DaysInRange(start, n, true)[i] == DaysInRange(start, n, true)[i - 1] + 1
    ensures DaysInRange(start, n, true) == Reversed(DaysInRange(start, n, false))
  {
  }
}
