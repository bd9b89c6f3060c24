/** Proleptic-Gregorian calendar arithmetic on day numbers.
    A local calendar date is identified with the number of days since
    1970-01-01; this is what `Date` objects at local midnight stand for in
    the source (src/lib/dates.ts), with daylight-saving shifts ignored. */
module Civil {

  /** Days since 1970-01-01 in the local calendar. */
  type Day = int

  datatype Date = Date(year: int, month: int, day: int)  // month is 1..12

  predicate IsLeap(y: int) {
    y % 4 == 0 && (y % 100 != 0 || y % 400 == 0)
  }

  function YearLength(y: int): int {
    if IsLeap(y) then 366 else 365
  }

  function DaysInMonth(y: int, m: int): (r: int)
    requires 1 <= m <= 12
    ensures 28 <= r <= 31
  {
    if m == 2 then (if IsLeap(y) then 29 else 28)
    else if m == 4 || m == 6 || m == 9 || m == 11 then 30
    else 31
  }

  /** Days of year `y` before the first of month `m`. */
  function DaysBeforeMonth(y: int, m: int): int
    requires 1 <= m <= 12
  {
    var cumulative := [0, 31, 59, 90, 120, 151, 181, 212, 243, 273, 304, 334];
    cumulative[m - 1] + (if m > 2 && IsLeap(y) then 1 else 0)
  }

  lemma DaysBeforeNextMonth(y: int, m: int)
    requires 1 <= m < 12
    ensures DaysBeforeMonth(y, m + 1) == DaysBeforeMonth(y, m) + DaysInMonth(y, m)
  {
  }

  lemma DaysBeforeMonthBounds(y: int, m: int)
    requires 1 <= m <= 12
    ensures 0 <= DaysBeforeMonth(y, m)
    ensures DaysBeforeMonth(y, m) + DaysInMonth(y, m) <= YearLength(y)
    ensures m == 12 ==> DaysBeforeMonth(y, m) + DaysInMonth(y, m) == YearLength(y)
  {
  }

  /** Number of leap years in 1..x (a difference of two of these counts the
      leap years in between, for any sign of x). */
  function Leaps(x: int): int {
    x / 4 - x / 100 + x / 400
  }

  function DaysBeforeYear(y: int): int {
    365 * (y - 1970) + Leaps(y - 1) - Leaps(1969)
  }

  /** Stepping from `y - 1` to `y` passes one more multiple of 4 exactly when `y` is one. */
  lemma Div4Step(y: int)
    ensures y / 4 - (y - 1) / 4 == if y % 4 == 0 then 1 else 0
  {
  }

  lemma Div100Step(y: int)
    ensures y / 100 - (y - 1) / 100 == if y % 100 == 0 then 1 else 0
  {
  }

  lemma Div400Step(y: int)
    ensures y / 400 - (y - 1) / 400 == if y % 400 == 0 then 1 else 0
  {
  }

  lemma LeapStep(y: int)
    ensures Leaps(y) - Leaps(y - 1) == if IsLeap(y) then 1 else 0
  {
    Div4Step(y);
    Div100Step(y);
    Div400Step(y);
    ModulusChain(y);
  }

  /** Multiples of 400 are multiples of 100, which are multiples of 4. */
  lemma ModulusChain(y: int)
    ensures y % 100 == 0 ==> y % 4 == 0
    ensures y % 400 == 0 ==> y % 100 == 0
  {
    if y % 100 == 0 {
      var q := y / 100;
      assert y == 4 * (25 * q);
    }
    if y % 400 == 0 {
      var q := y / 400;
      assert y == 100 * (4 * q);
    }
  }

  lemma YearStep(y: int)
    ensures DaysBeforeYear(y + 1) == DaysBeforeYear(y) + YearLength(y)
  {
    LeapStep(y);
  }

  lemma {:induction false} YearsMonotone(a: int, b: int)
    requires a <= b
    ensures DaysBeforeYear(a) + 365 * (b - a) <= DaysBeforeYear(b)
    decreases b - a
  {
    if a < b {
      YearsMonotone(a, b - 1);
      YearStep(b - 1);
    }
  }

  function DaysFromCivil(y: int, m: int, d: int): Day
    requires 1 <= m <= 12
  {
    DaysBeforeYear(y) + DaysBeforeMonth(y, m) + d - 1
  }

  predicate ValidDate(c: Date) {
    1 <= c.month <= 12 && 1 <= c.day <= DaysInMonth(c.year, c.month)
  }

  function ToDay(c: Date): Day
    requires 1 <= c.month <= 12
  {
    DaysFromCivil(c.year, c.month, c.day)
  }

  /** The year containing day `n`, searching from year `y` towards it. */
  function FindYear(n: Day, y: int): (r: int)
    ensures DaysBeforeYear(r) <= n < DaysBeforeYear(r + 1)
    decreases if n < DaysBeforeYear(y) then 1 else 0,
      if n < DaysBeforeYear(y) then DaysBeforeYear(y) - n else n - DaysBeforeYear(y)
  {
    YearStep(y);
    YearStep(y - 1);
    if n < DaysBeforeYear(y) then FindYear(n, y - 1)
    else if DaysBeforeYear(y + 1) <= n then FindYear(n, y + 1)
    else y
  }

  /** The year containing day `n`. */
  function YearOfDay(n: Day): (y: int)
    ensures DaysBeforeYear(y) <= n < DaysBeforeYear(y + 1)
  {
    FindYear(n, 1970)
  }

  lemma YearsOrdered(z: int, y: int, n: int)
    requires z < y
    requires n < DaysBeforeYear(z + 1)
    ensures n < DaysBeforeYear(y)
  {
    YearsMonotone(z + 1, y);
  }

  /** The only year whose days contain day `n`. */
  lemma YearUnique(n: Day, y: int)
    requires DaysBeforeYear(y) <= n < DaysBeforeYear(y + 1)
    ensures YearOfDay(n) == y
  {
    var z := YearOfDay(n);
    if z < y {
      YearsOrdered(z, y, n);
    } else if y < z {
      YearsOrdered(y, z, n);
    }
  }

  /** The month of year `y` containing day-of-year `doy`, searching down from `m`. */
  function MonthSearch(y: int, doy: int, m: int): (r: int)
    requires 1 <= m <= 12
    requires 0 <= doy < DaysBeforeMonth(y, m) + DaysInMonth(y, m)
    ensures 1 <= r <= m
    ensures DaysBeforeMonth(y, r) <= doy < DaysBeforeMonth(y, r) + DaysInMonth(y, r)
    decreases m
  {
    if DaysBeforeMonth(y, m) <= doy then m
    else
      assert m > 1;
      DaysBeforeNextMonth(y, m - 1);
      MonthSearch(y, doy, m - 1)
  }

  /** The calendar date of day `n`. */
  function FromDay(n: Day): (c: Date)
    ensures ValidDate(c) && ToDay(c) == n
  {
    var y := YearOfDay(n);
    YearStep(y);
    DaysBeforeMonthBounds(y, 12);
    var doy := n - DaysBeforeYear(y);
    var m := MonthSearch(y, doy, 12);
    Date(y, m, doy - DaysBeforeMonth(y, m) + 1)
  }

  lemma {:induction false} MonthUnique(y: int, doy: int, m: int, m': int)
    requires 1 <= m <= m' <= 12
    requires DaysBeforeMonth(y, m) <= doy < DaysBeforeMonth(y, m) + DaysInMonth(y, m)
    requires DaysBeforeMonth(y, m') <= doy < DaysBeforeMonth(y, m') + DaysInMonth(y, m')
    ensures m == m'
    decreases m' - m
  {
    if m < m' {
      DaysBeforeNextMonth(y, m);
      MonthsMonotone(y, m + 1, m');
    }
  }

  lemma {:induction false} MonthsMonotone(y: int, a: int, b: int)
    requires 1 <= a <= b <= 12
    ensures DaysBeforeMonth(y, a) <= DaysBeforeMonth(y, b)
    decreases b - a
  {
    if a < b {
      MonthsMonotone(y, a, b - 1);
      DaysBeforeNextMonth(y, b - 1);
    }
  }

  /** Converting a valid date to its day number and back gives the date again. */
  lemma FromToDay(c: Date)
    requires ValidDate(c)
    ensures FromDay(ToDay(c)) == c
  {
    var n := ToDay(c);
    DaysBeforeMonthBounds(c.year, c.month);
    YearStep(c.year);
    YearUnique(n, c.year);
    var r := FromDay(n);
    assert r.year == c.year;
    var doy := n - DaysBeforeYear(c.year);
    if r.month <= c.month {
      MonthUnique(c.year, doy, r.month, c.month);
    } else {
      MonthUnique(c.year, doy, c.month, r.month);
    }
  }

  /** Day numbers and valid dates are in one-to-one correspondence. */
  lemma ToDayInjective(c: Date, c': Date)
    requires ValidDate(c) && ValidDate(c') && ToDay(c) == ToDay(c')
    ensures c == c'
  {
    FromToDay(c);
    FromToDay(c');
  }

  function Year(n: Day): int { FromDay(n).year }

  /** `Date.prototype.getMonth`: 0..11. */
  function Month0(n: Day): (r: int)
    ensures 0 <= r < 12
  {
    FromDay(n).month - 1
  }

  /** `Date.prototype.getDate`: 1..31. */
  function DayOfMonth(n: Day): (r: int)
    ensures 1 <= r <= 31
  {
    FromDay(n).day
  }

  /** `Date.prototype.getDay`: 0 = Sunday .. 6 = Saturday; 1970-01-01 was a Thursday. */
  function Weekday(n: Day): (r: int)
    ensures 0 <= r < 7
  {
    (n + 4) % 7
  }

  lemma WeekdayShift(n: Day, k: int)
    ensures Weekday(n + k) == (Weekday(n) + k) % 7
  {
  }

  /** The remainder of JavaScript's `%` operator on integers: it truncates
      toward zero, so the result has the sign of the dividend. */
  function JsRem(a: int, b: int): (r: int)
    requires b > 0
    ensures a >= 0 ==> r == a % b
    ensures a < 0 ==> -b < r <= 0
  {
    if a >= 0 then a % b else -((-a) % b)
  }

  /** `new Date(year, monthIndex, date)`: the month index and the day may lie
      outside their ranges and are carried over into the year and month, and a
      year 0..99 means 1900..1999. */
  function MakeLocalDate(year: int, monthIndex: int, date: int): Day {
    var y := if 0 <= year <= 99 then 1900 + year else year;
    MonthStart(12 * y + monthIndex) + date - 1
  }

  lemma MakeLocalDateOfValid(c: Date)
    requires ValidDate(c) && !(0 <= c.year <= 99)
    ensures MakeLocalDate(c.year, c.month - 1, c.day) == ToDay(c)
  {
  }

  /** First day of the month with absolute index `a` = 12 * year + monthIndex. */
  function MonthStart(a: int): Day {
    DaysFromCivil(a / 12, a % 12 + 1, 1)
  }

  /** Absolute month index of day `n`. */
  function MonthIndex(n: Day): int {
    12 * Year(n) + Month0(n)
  }

  lemma MonthStartNext(a: int)
    ensures MonthStart(a + 1) == MonthStart(a) + DaysInMonth(a / 12, a % 12 + 1)
  {
    var y, m := a / 12, a % 12 + 1;
    if m < 12 {
      assert (a + 1) / 12 == y && (a + 1) % 12 + 1 == m + 1;
      DaysBeforeNextMonth(y, m);
    } else {
      assert (a + 1) / 12 == y + 1 && (a + 1) % 12 == 0;
      YearStep(y);
      DaysBeforeMonthBounds(y, 12);
    }
  }

  /** Day `n` lies in the month with index `a == MonthIndex(n)`. */
  lemma MonthIndexBounds(n: Day, a: int, b: int)
    requires a == MonthIndex(n) && b == a + 1
    ensures MonthStart(a) <= n < MonthStart(b)
    ensures n - MonthStart(a) == DayOfMonth(n) - 1
  {
    MonthOfDate(FromDay(n), a, b);
  }

  /** A valid date lies in the month with its year's and month's index. */
  lemma MonthOfDate(c: Date, a: int, b: int)
    requires ValidDate(c) && a == 12 * c.year + (c.month - 1) && b == a + 1
    ensures MonthStart(a) <= ToDay(c) < MonthStart(b)
    ensures ToDay(c) - MonthStart(a) == c.day - 1
  {
    MonthIndexSplit(c.year, c.month - 1, a);
    MonthStartNext(a);
  }

  lemma {:induction false} MonthStartMonotone(a: int, b: int)
    requires a <= b
    ensures MonthStart(a) + 28 * (b - a) <= MonthStart(b)
    decreases b - a
  {
    if a < b {
      var c := b - 1;
      MonthStartMonotone(a, c);
      MonthStartStep(c, b);
    }
  }

  lemma MonthStartStep(c: int, b: int)
    requires b == c + 1
    ensures MonthStart(c) + 28 <= MonthStart(b)
  {
    MonthStartNext(c);
  }

  /** Later months start on later days. */
  lemma MonthStartIncreasing(a: int, b: int)
    requires a < b
    ensures MonthStart(a) < MonthStart(b)
  {
    MonthStartMonotone(a, b);
  }

  lemma MonthsUpTo(a: int, i: int, n: Day)
    requires a <= i && MonthStart(i) <= n
    ensures MonthStart(a) <= n
  {
    MonthStartMonotone(a, i);
  }

  lemma MonthsAfter(i: int, a: int, n: Day)
    requires i < a && n < MonthStart(i + 1)
    ensures n < MonthStart(a)
  {
    MonthStartMonotone(i + 1, a);
  }

  lemma MonthStartBetween(a: int, i: int, n: Day)
    requires MonthStart(i) <= n < MonthStart(i + 1)
    ensures MonthStart(a) <= n <==> a <= i
  {
    if a <= i {
      MonthsUpTo(a, i, n);
    } else {
      MonthsAfter(i, a, n);
    }
  }

  /** The first day of month `a` is not after day `n` exactly when `a` is at most `n`'s month. */
  lemma MonthStartBefore(a: int, n: Day)
    ensures MonthStart(a) <= n <==> a <= MonthIndex(n)
  {
    var i := MonthIndex(n);
    MonthIndexBounds(n, i, i + 1);
    MonthStartBetween(a, i, n);
  }

  /** The month of the first day of month `a` is `a`. */
  lemma MonthIndexOfStart(a: int)
    ensures MonthIndex(MonthStart(a)) == a
    ensures DayOfMonth(MonthStart(a)) == 1
  {
    var c := Date(a / 12, a % 12 + 1, 1);
    FromToDay(c);
  }

  /** Month index `a` of month `m0` of year `y`. */
  lemma MonthIndexSplit(y: int, m0: int, a: int)
    requires 0 <= m0 < 12 && a == 12 * y + m0
    ensures a / 12 == y && a % 12 == m0
  {
  }

  /** The first day of month `a` is in month `a % 12` of its year. */
  lemma MonthOfStart(a: int, m0: int)
    requires m0 == a % 12
    ensures Month0(MonthStart(a)) == m0
  {
    MonthIndexOfStart(a);
    MonthIndexParts(MonthStart(a));
  }

  /** Day `n` lies in its year: on or after January 1 of `Year(n)` and
      before January 1 of the next year. */
  lemma DayInYear(n: Day)
    ensures DaysBeforeYear(Year(n)) <= n < DaysBeforeYear(Year(n)) + YearLength(Year(n))
  {
    YearStep(Year(n));
  }

  /** A day between two consecutive January firsts belongs to that year. */
  lemma YearOfDayIn(n: Day, y: int)
    requires DaysBeforeYear(y) <= n < DaysBeforeYear(y) + YearLength(y)
    ensures Year(n) == y
  {
    YearStep(y);
    YearUnique(n, y);
  }

  /** `new Date(y, 0, 1)` is January 1 of `y` except for the years 0..99. */
  lemma JanFirstOf(y: int)
    requires !(0 <= y <= 99)
    ensures MakeLocalDate(y, 0, 1) == DaysBeforeYear(y)
  {
  }

  /** The year and month of a day, read off its absolute month index. */
  lemma MonthIndexParts(n: Day)
    ensures MonthIndex(n) / 12 == Year(n) && MonthIndex(n) % 12 == Month0(n)
  {
  }

  /** `d.setMonth(monthIndex)`: the same day of the month in month
      `monthIndex` of `d`'s year, carried over into other years like the
      constructor but without the 0..99 rule. */
  function SetMonth(d: Day, monthIndex: int): Day {
    MonthStart(12 * Year(d) + monthIndex) + DayOfMonth(d) - 1
  }

  /** `d.setFullYear(year)`: the same month and day of the month in `year`. */
  function SetFullYear(d: Day, year: int): Day {
    MonthStart(12 * year + Month0(d)) + DayOfMonth(d) - 1
  }

  /** Equal month indices name the same month. */
  lemma SameMonthStart(a: int, b: int)
    requires a == b
    ensures MonthStart(a) == MonthStart(b)
  {
  }

  /** `setMonth` on a first of the month whose month index is known. */
  lemma SetMonthOfFirst(m: Day, a: int, k: int)
    requires MonthIndex(m) == a && DayOfMonth(m) == 1
    ensures SetMonth(m, Month0(m) + k) == MonthStart(a + k)
  {
    SameMonthStart(12 * Year(m) + (Month0(m) + k), a + k);
  }

  /** Moving the first of a month on by `k` months with `setMonth` gives the
      first of month `a + k`. */
  lemma SetMonthOfStart(a: int, k: int)
    ensures SetMonth(MonthStart(a), Month0(MonthStart(a)) + k) == MonthStart(a + k)
  {
    MonthIndexOfStart(a);
    SetMonthOfFirst(MonthStart(a), a, k);
  }

  /** `setFullYear` on a first of the month whose month index is known. */
  lemma SetFullYearOfFirst(m: Day, a: int)
    requires MonthIndex(m) == a && DayOfMonth(m) == 1
    ensures SetFullYear(m, Year(m) + 1) == MonthStart(a + 12)
  {
    SameMonthStart(12 * (Year(m) + 1) + Month0(m), a + 12);
  }

  /** Moving the first of a month on by one year with `setFullYear` gives the
      first of the month twelve months later. */
  lemma SetFullYearOfStart(a: int)
    ensures SetFullYear(MonthStart(a), Year(MonthStart(a)) + 1) == MonthStart(a + 12)
  {
    MonthIndexOfStart(a);
    SetFullYearOfFirst(MonthStart(a), a);
  }

  /** `setMonth(getMonth() + k)` lands on the same day of the month in the
      month `k` months on, or (when that month is shorter) a few days into
      the month after it. */
  lemma SetMonthFromStart(d: Day, k: int, j: int)
    requires j == MonthIndex(d) + k
    ensures SetMonth(d, Month0(d) + k) == MonthStart(j) + DayOfMonth(d) - 1
  {
    SameMonthStart(12 * Year(d) + (Month0(d) + k), j);
  }

  /** Moving a day on by a positive number of months with `setMonth` gives
      a later day `x`. */
  lemma SetMonthLater(d: Day, k: int, x: Day)
    requires k > 0 && x == SetMonth(d, Month0(d) + k)
    ensures x > d
  {
    var i, dom := MonthIndex(d), DayOfMonth(d);
    var j := i + k;
    var p, q := MonthStart(i), MonthStart(j);
    assert x == q + dom - 1 by { SetMonthFromStart(d, k, j); }
    assert d == p + dom - 1 by { MonthIndexBounds(d, i, i + 1); }
    assert p < q by { MonthStartIncreasing(i, j); }
  }

  lemma NextMonthLater(d: Day)
    ensures SetMonth(d, Month0(d) + 1) > d
  {
    SetMonthLater(d, 1, SetMonth(d, Month0(d) + 1));
  }

  lemma NextQuarterLater(d: Day)
    ensures SetMonth(d, Month0(d) + 3) > d
  {
    SetMonthLater(d, 3, SetMonth(d, Month0(d) + 3));
  }

  /** Moving a day on by a year with `setFullYear` gives a later day. */
  lemma SetFullYearLater(d: Day)
    ensures SetFullYear(d, Year(d) + 1) > d
  {
    assert 12 * (Year(d) + 1) + Month0(d) == 12 * Year(d) + (Month0(d) + 12);
    SetMonthLater(d, 12, SetFullYear(d, Year(d) + 1));
  }
}
