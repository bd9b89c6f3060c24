/** The JavaScript string and number conversions the core relies on:
    decimal and hexadecimal formatting, `Number(...)` on the strings the
    core produces, `String.prototype.split`, `padStart`, `trim` and
    `endsWith`. */
module Text {
  import opened Wrappers

  predicate IsDigit(c: char) { '0' <= c <= '9' }

  function DigitChar(d: int): (c: char)
    requires 0 <= d < 10
    ensures IsDigit(c)
  {
    "0123456789"[d]
  }

  function DigitValue(c: char): (d: int)
    requires IsDigit(c)
    ensures 0 <= d < 10
  {
    (c - '0') as int
  }

  lemma DigitRoundTrip(d: int)
    requires 0 <= d < 10
    ensures DigitValue(DigitChar(d)) == d
  {
  }

  predicate AllDigits(s: string) {
    forall i :: 0 <= i < |s| ==> IsDigit(s[i])
  }

  /** Decimal rendering of a non-negative integer, as `n.toString()`. */
  function NatToString(n: nat): (s: string)
    ensures |s| >= 1 && AllDigits(s)
    ensures n < 10 <==> |s| == 1
    decreases n
  {
    if n < 10 then [DigitChar(n)] else NatToString(n / 10) + [DigitChar(n % 10)]
  }

  /** Decimal rendering of an integer, as `String(n)` or `${n}`. */
  function IntToString(n: int): (s: string)
    ensures |s| >= 1
  {
    if n < 0 then "-" + NatToString(-n) else NatToString(n)
  }

  /** Value of a string of decimal digits. */
  function DigitsValue(s: string): (v: nat)
    requires AllDigits(s)
    decreases |s|
  {
    if s == [] then 0 else DigitsValue(s[..|s| - 1]) * 10 + DigitValue(s[|s| - 1])
  }

  lemma {:induction false} DigitsValueOfNat(n: nat)
    ensures DigitsValue(NatToString(n)) == n
    decreases n
  {
    if n >= 10 {
      var s := NatToString(n);
      assert s[..|s| - 1] == NatToString(n / 10);
      DigitsValueOfNat(n / 10);
      DigitRoundTrip(n % 10);
    } else {
      DigitRoundTrip(n);
    }
  }

  /** `Number(s)` for the strings the core feeds it: an optional minus sign
      followed by decimal digits, or the empty string (which is 0). Every
      other string is NaN here, modelled as None. */
  function NumberOf(s: string): (r: Option<int>)
    ensures AllDigits(s) ==> r == Some(DigitsValue(s))
  {
    if AllDigits(s) then Some(DigitsValue(s))
    else if |s| >= 2 && s[0] == '-' && AllDigits(s[1..]) then Some(-(DigitsValue(s[1..]) as int))
    else None
  }

  /** `Number(String(n)) == n`. */
  lemma NumberOfIntToString(n: int)
    ensures NumberOf(IntToString(n)) == Some(n)
  {
    if n < 0 {
      NumberOfMinus(-n, IntToString(n));
    } else {
      NumberOfDigits(n, IntToString(n));
    }
  }

  /** The digits of `k` read as `k`. */
  lemma NumberOfDigits(k: nat, s: string)
    requires s == NatToString(k)
    ensures NumberOf(s) == Some(k)
  {
    DigitsValueOfNat(k);
  }

  /** A minus sign followed by the digits of `k` reads as `-k`. */
  lemma NumberOfMinus(k: nat, s: string)
    requires s == "-" + NatToString(k)
    ensures NumberOf(s) == Some(-(k as int))
  {
    assert s[0] == '-' && !AllDigits(s);
    assert s[1..] == NatToString(k);
    DigitsValueOfNat(k);
  }

  /** `s.padStart(2, "0")`. */
  function PadStart2(s: string): (r: string)
    ensures |s| >= 2 ==> r == s
    ensures |s| < 2 ==> |r| == 2 && r[2 - |s|..] == s
    ensures forall i :: 0 <= i < |r| - |s| ==> r[i] == '0'
  {
    if |s| >= 2 then s else if |s| == 1 then "0" + s else "00"
  }

  /** Leading zeros do not change the value of a digit string. */
  lemma {:induction false} DigitsValueLeadingZero(s: string)
    requires AllDigits(s)
    ensures DigitsValue("0" + s) == DigitsValue(s)
    decreases |s|
  {
    if s != [] {
      var t := "0" + s;
      assert t[..|t| - 1] == "0" + s[..|s| - 1];
      DigitsValueLeadingZero(s[..|s| - 1]);
    }
  }

  /** Two-digit zero padding of a number below 100 reads back as the number. */
  lemma PadStart2RoundTrip(n: nat)
    requires n < 100
    ensures |PadStart2(NatToString(n))| == 2
    ensures AllDigits(PadStart2(NatToString(n)))
    ensures NumberOf(PadStart2(NatToString(n))) == Some(n)
  {
    DigitsValueOfNat(n);
    if n < 10 {
      DigitsValueLeadingZero(NatToString(n));
    }
  }

  // ----- searching and splitting -----

  predicate MatchAt(s: string, sep: string, i: nat) {
    i + |sep| <= |s| && s[i..i + |sep|] == sep
  }

  /** The first position at or after `i` where `sep` occurs in `s`. */
  function IndexFrom(s: string, sep: string, i: nat): (r: Option<nat>)
    requires |sep| > 0
    ensures r.Some? ==> i <= r.value && MatchAt(s, sep, r.value)
    ensures r.Some? ==> forall j :: i <= j < r.value ==> !MatchAt(s, sep, j)
    ensures r.None? ==> forall j :: i <= j ==> !MatchAt(s, sep, j)
    decreases |s| - i
  {
    if i + |sep| > |s| then None
    else if MatchAt(s, sep, i) then Some(i)
    else IndexFrom(s, sep, i + 1)
  }

  /** `s.indexOf(sep)`, with -1 as None. */
  function IndexOf(s: string, sep: string): Option<nat>
    requires |sep| > 0
  {
    IndexFrom(s, sep, 0)
  }

  lemma {:induction false} IndexFromFirst(s: string, sep: string, i: nat, k: nat)
    requires |sep| > 0 && i <= k && MatchAt(s, sep, k)
    requires forall j :: i <= j < k ==> !MatchAt(s, sep, j)
    ensures IndexFrom(s, sep, i) == Some(k)
    decreases k - i
  {
    if i < k {
      IndexFromFirst(s, sep, i + 1, k);
    }
  }

  /** `s.split(sep)` for a non-empty separator. */
  function SplitOn(s: string, sep: string): (parts: seq<string>)
    requires |sep| > 0
    ensures |parts| >= 1
    decreases |s|
  {
    match IndexOf(s, sep)
    case None => [s]
    case Some(i) => [s[..i]] + SplitOn(s[i + |sep|..], sep)
  }

  /** Splitting `a + sep + b` where no occurrence of `sep` starts inside `a`. */
  lemma SplitAfterFirst(a: string, sep: string, b: string)
    requires |sep| > 0
    requires forall j :: 0 <= j < |a| ==> !MatchAt(a + sep + b, sep, j)
    ensures SplitOn(a + sep + b, sep) == [a] + SplitOn(b, sep)
  {
    var s := a + sep + b;
    assert s[|a|..|a| + |sep|] == sep;
    IndexFromFirst(s, sep, 0, |a|);
    assert s[..|a|] == a;
    assert s[|a| + |sep|..] == b;
  }

  /** A string in which `sep` never occurs splits into itself alone. */
  lemma SplitNoSeparator(s: string, sep: string)
    requires |sep| > 0
    requires forall j :: 0 <= j < |s| ==> !MatchAt(s, sep, j)
    ensures SplitOn(s, sep) == [s]
  {
  }

  /** A one-character separator never occurs inside a string free of that character. */
  lemma NoCharMatch(a: string, c: char, b: string)
    requires forall i :: 0 <= i < |a| ==> a[i] != c
    ensures forall j :: 0 <= j < |a| ==> !MatchAt(a + [c] + b, [c], j)
  {
    forall j | 0 <= j < |a|
      ensures !MatchAt(a + [c] + b, [c], j)
    {
      assert (a + [c] + b)[j] == a[j];
    }
  }

  // ----- whitespace and suffixes -----

  /** The characters `String.prototype.trim` removes: WhiteSpace (tab,
      vertical tab, form feed, space, no-break space, the byte order mark and
      every Unicode space separator) and LineTerminator. */
  predicate IsJsWhitespace(c: char) {
    c == '\t' || c == '\U{000B}' || c == '\U{000C}' || c == ' ' || c == '\U{00A0}' || c == '\U{FEFF}'
    || c == '\n' || c == '\r' || c == '\U{2028}' || c == '\U{2029}'
    || c == '\U{1680}' || ('\U{2000}' <= c <= '\U{200A}') || c == '\U{202F}' || c == '\U{205F}' || c == '\U{3000}'
  }

  /** `!s.trim()`: the trimmed string is empty. */
  predicate IsBlank(s: string) {
    forall i :: 0 <= i < |s| ==> IsJsWhitespace(s[i])
  }

  predicate EndsWith(s: string, suffix: string) {
    |suffix| <= |s| && s[|s| - |suffix|..] == suffix
  }

  // ----- hexadecimal -----

  /** The upper-case hexadecimal digit of `d`. */
  function HexChar(d: int): char
    requires 0 <= d < 16
  {
    if d < 10 then ('0' as int + d) as char else ('A' as int + d - 10) as char
  }

  predicate IsHexDigit(c: char) {
    ('0' <= c <= '9') || ('a' <= c <= 'f') || ('A' <= c <= 'F')
  }

  function HexValue(c: char): (d: int)
    requires IsHexDigit(c)
    ensures 0 <= d < 16
  {
    if '0' <= c <= '9' then (c - '0') as int
    else if 'a' <= c <= 'f' then (c - 'a') as int + 10
    else (c - 'A') as int + 10
  }

  lemma HexCharRoundTrip(d: int)
    requires 0 <= d < 16
    ensures IsHexDigit(HexChar(d)) && HexValue(HexChar(d)) == d
  {
  }

  /** `n.toString(16).toUpperCase()` for a non-negative integer. */
  function NatToHex(n: nat): (s: string)
    ensures |s| >= 1
    ensures forall i :: 0 <= i < |s| ==> IsHexDigit(s[i])
    decreases n
  {
    if n < 16 then [HexChar(n)] else NatToHex(n / 16) + [HexChar(n % 16)]
  }

  /** Value of a string of hexadecimal digits. */
  function HexDigitsValue(s: string): (v: nat)
    requires forall i :: 0 <= i < |s| ==> IsHexDigit(s[i])
    decreases |s|
  {
    if s == [] then 0 else HexDigitsValue(s[..|s| - 1]) * 16 + HexValue(s[|s| - 1])
  }

  lemma HexDigitsPush(t: string, c: char)
    requires forall i :: 0 <= i < |t| ==> IsHexDigit(t[i])
    requires IsHexDigit(c)
    ensures HexDigitsValue(t + [c]) == HexDigitsValue(t) * 16 + HexValue(c)
  {
    var s := t + [c];
    assert s[..|s| - 1] == t;
  }

  lemma {:induction false} HexRoundTrip(n: nat)
    ensures HexDigitsValue(NatToHex(n)) == n
    decreases n
  {
    var q, r := n / 16, n % 16;
    assert n == q * 16 + r;
    var s, c := NatToHex(n), HexChar(r);
    HexCharRoundTrip(r);
    if n >= 16 {
      var t := NatToHex(q);
      assert s == t + [c];
      HexDigitsPush(t, c);
      HexRoundTrip(q);
    } else {
      assert s == [] + [c];
      HexDigitsPush([], c);
    }
  }

  /** Length of the longest prefix of `s` made of hexadecimal digits. */
  function HexPrefixLength(s: string): (k: nat)
    ensures k <= |s|
    ensures forall i :: 0 <= i < k ==> IsHexDigit(s[i])
    ensures k < |s| ==> !IsHexDigit(s[k])
    decreases |s|
  {
    if s == [] || !IsHexDigit(s[0]) then 0 else 1 + HexPrefixLength(s[1..])
  }

  /** `parseInt(s, 16)` on a string without sign, whitespace or `0x` prefix:
      the value of the leading hexadecimal digits, or NaN (None) when there are none. */
  function ParseHexPrefix(s: string): (r: Option<nat>)
    ensures r.None? <==> (s == [] || !IsHexDigit(s[0]))
  {
    var k := HexPrefixLength(s);
    if k == 0 then None else Some(HexDigitsValue(s[..k]))
  }

  // ----- integers inside keys -----

  /** `String(n)`: digits, after a minus sign when `n` is negative. */
  lemma IntToStringShape(n: int)
    ensures var s := IntToString(n);
      (IsDigit(s[0]) || (s[0] == '-' && |s| >= 2))
      && forall k :: 1 <= k < |s| ==> IsDigit(s[k])
  {
    if n < 0 {
      var t := NatToString(-n);
      assert forall k :: 1 <= k < |"-" + t| ==> ("-" + t)[k] == t[k - 1];
    }
  }

  /** A separator made of a dash and a non-digit never occurs inside the
      text of an integer, so splitting stops right after it. */
  lemma SplitAfterInt(n: int, sep: string, b: string)
    requires |sep| == 2 && sep[0] == '-' && !IsDigit(sep[1])
    ensures SplitOn(IntToString(n) + sep + b, sep) == [IntToString(n)] + SplitOn(b, sep)
  {
    var a := IntToString(n);
    var s := a + sep + b;
    IntToStringShape(n);
    forall j | 0 <= j < |a|
      ensures !MatchAt(s, sep, j)
    {
      assert s[j] == a[j];
      if j + 1 < |a| {
        assert s[j + 1] == a[j + 1];
      } else {
        assert s[j + 1] == sep[0];
      }
      assert s[j..j + 2][0] == s[j] && s[j..j + 2][1] == s[j + 1];
    }
    SplitAfterFirst(a, sep, b);
  }

  /** The same separator does not split the text of an integer at all. */
  lemma IntAlone(n: int, sep: string)
    requires |sep| == 2 && sep[0] == '-' && !IsDigit(sep[1])
    ensures SplitOn(IntToString(n), sep) == [IntToString(n)]
  {
    var a := IntToString(n);
    IntToStringShape(n);
    forall j | 0 <= j < |a|
      ensures !MatchAt(a, sep, j)
    {
      if j + 1 < |a| {
        assert a[j..j + 2][0] == a[j] && a[j..j + 2][1] == a[j + 1];
      }
    }
    SplitNoSeparator(a, sep);
  }

  /** `s.replace(pattern, replacement)` with a string pattern: only the first
      occurrence is replaced. */
  function ReplaceFirst(s: string, pattern: string, replacement: string): string
    requires |pattern| > 0
  {
    match IndexOf(s, pattern)
    case None => s
    case Some(i) => s[..i] + replacement + s[i + |pattern|..]
  }
}
