/** Colour helpers (src/lib/color.ts): appending an alpha byte to a colour
    and deciding whether a hex colour, drawn at some opacity over white, is
    dark enough to need light text. */
module Color {
  import opened Wrappers
  import opened Text
  import opened JsMath

  // ----- addAlpha -----

  /** `Math.min(Math.max(opacity ?? 1, 0), 1)`. */
  function ClampOpacity(opacity: Option<real>): (o: real)
    ensures 0.0 <= o <= 1.0
    ensures opacity.Some? && 0.0 <= opacity.value <= 1.0 ==> o == opacity.value
  {
    var x := opacity.GetOr(1.0);
    var atLeastZero := if x > 0.0 then x else 0.0;
    if atLeastZero < 1.0 then atLeastZero else 1.0
  }

  /** `Math.round(clamped × 255)`: the alpha byte. */
  function AlphaByte(opacity: Option<real>): (n: nat)
    ensures n <= 255
  {
    var scaled := ClampOpacity(opacity) * 255.0;
    RoundMonotone(0.0, scaled);
    RoundMonotone(scaled, 255.0);
    RoundWhole(0);
    RoundWhole(255);
    Round(scaled)
  }

  /** `addAlpha(color, opacity)`: the colour followed by the alpha byte in
      upper-case hexadecimal, without padding. */
  function AddAlpha(color: string, opacity: Option<real>): string {
    color + NatToHex(AlphaByte(opacity))
  }

  /** A larger opacity never gives a smaller alpha byte. */
  lemma AlphaByteMonotone(a: real, b: real)
    requires a <= b
    ensures AlphaByte(Some(a)) <= AlphaByte(Some(b))
  {
    var ca, cb := ClampOpacity(Some(a)), ClampOpacity(Some(b));
    assert ca <= cb;
    RoundMonotone(ca * 255.0, cb * 255.0);
  }

  /** The colour is kept as it is and followed by the alpha byte, which
      reads back from the suffix; the suffix has two digits from 16 on and
      one below. */
  lemma AddAlphaReadsBack(color: string, opacity: Option<real>)
    ensures var s := AddAlpha(color, opacity);
      |s| > |color| && s[..|color|] == color
    ensures var suffix := AddAlpha(color, opacity)[|color|..];
      (forall i :: 0 <= i < |suffix| ==> IsHexDigit(suffix[i])) &&
      HexDigitsValue(suffix) == AlphaByte(opacity) &&
      |suffix| == (if AlphaByte(opacity) < 16 then 1 else 2)
  {
    var s := AddAlpha(color, opacity);
    assert s[|color|..] == NatToHex(AlphaByte(opacity));
    HexRoundTrip(AlphaByte(opacity));
  }

  /** The three opacities of the calendar heat map and the default. */
  lemma HeatMapAlphas(color: string)
    ensures AddAlpha(color, Some(0.3)) == color + "4D"
    ensures AddAlpha(color, Some(0.5)) == color + "80"
    ensures AddAlpha(color, Some(0.7)) == color + "B3"
    ensures AddAlpha(color, None) == color + "FF"
  {
    RoundExact(76.5, 77);
    RoundExact(127.5, 128);
    RoundExact(178.5, 179);
    RoundWhole(255);
    assert NatToHex(77) == NatToHex(4) + [HexChar(13)];
    assert NatToHex(128) == NatToHex(8) + [HexChar(0)];
    assert NatToHex(179) == NatToHex(11) + [HexChar(3)];
    assert NatToHex(255) == NatToHex(15) + [HexChar(15)];
  }

  /** `Math.round` of a value whose rounding is known. */
  lemma RoundExact(x: real, n: int)
    requires n as real - 0.5 <= x < n as real + 0.5
    ensures Round(x) == n
  {
    FloorBounds(x + 0.5);
  }

  /** As written, a fully transparent colour gets the single digit "0",
      which makes a six-digit hex colour seven digits long. */
  lemma TransparentSuffixIsOneDigit()
    ensures AddAlpha("#FF0000", Some(0.0)) == "#FF00000"
    ensures |AddAlpha("#FF0000", Some(0.0))| == 8
  {
    RoundExact(0.0, 0);
  }

  /** `n.toString(16).toUpperCase().padStart(2, "0")`. */
  function HexByte(n: nat): (s: string)
    requires n <= 255
    ensures |s| == 2 && (forall i :: 0 <= i < 2 ==> IsHexDigit(s[i]))
  {
    if n < 16 then "0" + NatToHex(n)
    else
      assert NatToHex(n) == NatToHex(n / 16) + [HexChar(n % 16)];
      NatToHex(n)
  }

  /** The alpha byte as two hexadecimal digits, the `#RRGGBBAA` form. */
  function AddAlphaPadded(color: string, opacity: Option<real>): string {
    color + HexByte(AlphaByte(opacity))
  }

  /** The padded suffix is always two digits and reads back as the byte; it
      differs from the unpadded one only below 16. */
  lemma AddAlphaPaddedReadsBack(color: string, opacity: Option<real>)
    ensures var s := AddAlphaPadded(color, opacity);
      |s| == |color| + 2 && s[..|color|] == color &&
      HexDigitsValue(s[|color|..]) == AlphaByte(opacity)
    ensures AlphaByte(opacity) >= 16 ==> AddAlphaPadded(color, opacity) == AddAlpha(color, opacity)
  {
    var n := AlphaByte(opacity);
    var s := AddAlphaPadded(color, opacity);
    assert s[|color|..] == HexByte(n);
    HexRoundTrip(n);
    if n < 16 {
      var t := NatToHex(n);
      assert |t| == 1;
      assert HexByte(n) == ['0'] + t;
      HexDigitsPush(['0'], t[0]);
      assert HexDigitsValue(['0']) == 0 by {
        HexDigitsPush([], '0');
        assert [] + ['0'] == ['0'];
      }
      assert HexDigitsValue(t) == HexDigitsValue([] + [t[0]]) by {
        assert t == [] + [t[0]];
      }
      HexDigitsPush([], t[0]);
    }
  }

  // ----- isColorDark -----

  /** `hex.replace(/^#/, "")`. */
  function StripHash(hex: string): string {
    if |hex| > 0 && hex[0] == '#' then hex[1..] else hex
  }

  /** Three digits are doubled one by one: "abc" becomes "aabbcc". */
  function Expand(h: string): (r: string)
    ensures |h| != 3 ==> r == h
  {
    if |h| == 3 then [h[0], h[0], h[1], h[1], h[2], h[2]] else h
  }

  /** `hex.slice(0, 6)`. */
  function First6(h: string): (r: string)
    ensures |r| <= 6
  {
    if |h| <= 6 then h else h[..6]
  }

  /** 16 to the power `k`. */
  function Pow16(k: nat): (p: nat)
    ensures p >= 1
  {
    if k == 0 then 1 else 16 * Pow16(k - 1)
  }

  lemma {:induction false} HexDigitsBelow(s: string)
    requires forall i :: 0 <= i < |s| ==> IsHexDigit(s[i])
    ensures HexDigitsValue(s) < Pow16(|s|)
    decreases |s|
  {
    if s != [] {
      HexDigitsBelow(s[..|s| - 1]);
    }
  }

  /** The digits `isColorDark` parses: without `#`, expanded, at most six. */
  function ColorDigits(hex: string): (digits: string)
    ensures |digits| <= 6
  {
    First6(Expand(StripHash(hex)))
  }

  /** `parseInt(digits, 16)` on at most six characters, with NaN read as 0:
      the shifts and masks turn NaN into 0. Below 2^24. */
  function HexNumber(digits: string): (num: nat)
    requires |digits| <= 6
    ensures num < 16777216
  {
    var k := HexPrefixLength(digits);
    HexDigitsBelow(digits[..k]);
    Pow16Monotone(k, 6);
    ParseHexPrefix(digits).GetOr(0)
  }

  /** The number `isColorDark` reads from `hex`. */
  function ColorNumber(hex: string): (num: nat)
    ensures num < 16777216
  {
    HexNumber(ColorDigits(hex))
  }

  lemma {:induction false} Pow16Monotone(a: nat, b: nat)
    requires a <= b
    ensures Pow16(a) <= Pow16(b)
    decreases b
  {
    if a < b {
      Pow16Monotone(a, b - 1);
    }
  }

  /** `(num >> 16) & 255`, `(num >> 8) & 255` and `num & 255`. */
  function Red(num: nat): nat { num / 65536 % 256 }
  function Green(num: nat): nat { num / 256 % 256 }
  function Blue(num: nat): nat { num % 256 }

  /** The perceived brightness of the opaque colour:
      `0.299 r + 0.587 g + 0.114 b`. */
  function Brightness(num: nat): real {
    0.299 * Red(num) as real + 0.587 * Green(num) as real + 0.114 * Blue(num) as real
  }

  /** The brightness `l` of a colour drawn with opacity `alpha` over white. */
  function Luminance(l: real, alpha: real): real {
    l * alpha + 255.0 * (1.0 - alpha)
  }

  /** `isColorDark(hex, alpha = 1)`. */
  predicate IsColorDark(hex: string, alpha: Option<real>) {
    Luminance(Brightness(ColorNumber(hex)), alpha.GetOr(1.0)) < 140.0
  }

  /** The channels are the three bytes of the number, and make it up. */
  lemma ChannelsOfNumber(num: nat)
    requires num < 16777216
    ensures Red(num) == num / 65536 && num == Red(num) * 65536 + Green(num) * 256 + Blue(num)
    ensures Red(num) <= 255 && Green(num) <= 255 && Blue(num) <= 255
  {
  }

  lemma ShiftLeft(x: int, p: int, y: int)
    ensures (x * p + y) * 16 == x * (16 * p) + y * 16
  {
  }

  /** Value of hexadecimal digits split into a head and a tail. */
  lemma {:induction false} HexDigitsConcat(a: string, b: string)
    requires forall i :: 0 <= i < |a| ==> IsHexDigit(a[i])
    requires forall i :: 0 <= i < |b| ==> IsHexDigit(b[i])
    ensures HexDigitsValue(a + b) == HexDigitsValue(a) * Pow16(|b|) + HexDigitsValue(b)
    decreases |b|
  {
    if b == [] {
      assert a + b == a;
    } else {
      var c := b[|b| - 1];
      var b' := b[..|b| - 1];
      assert a + b == (a + b') + [c];
      assert b == b' + [c];
      HexDigitsConcat(a, b');
      HexDigitsPush(a + b', c);
      HexDigitsPush(b', c);
      var va, vb, p := HexDigitsValue(a), HexDigitsValue(b'), Pow16(|b'|);
      assert Pow16(|b|) == 16 * p;
      calc {
        HexDigitsValue(a + b);
        (va * p + vb) * 16 + HexValue(c);
        { ShiftLeft(va, p, vb); }
        va * (16 * p) + vb * 16 + HexValue(c);
      }
    }
  }

  /** The channels of the number made of three bytes are those bytes. */
  lemma ChannelsOfBytes(num: nat, r: nat, g: nat, b: nat)
    requires r < 256 && g < 256 && b < 256
    requires num == r * 65536 + g * 256 + b
    ensures Red(num) == r && Green(num) == g && Blue(num) == b
  {
    assert num == (r * 256 + g) * 256 + b;
    assert num / 256 == r * 256 + g;
    assert num / 65536 == r;
  }

  /** Six hex digits are worth their three digit pairs as bytes. */
  lemma SixDigitsAsBytes(h: string)
    requires |h| == 6 && forall i :: 0 <= i < 6 ==> IsHexDigit(h[i])
    ensures HexDigitsValue(h) == HexDigitsValue(h[..2]) * 65536 + HexDigitsValue(h[2..4]) * 256 + HexDigitsValue(h[4..])
    ensures HexDigitsValue(h[..2]) < 256 && HexDigitsValue(h[2..4]) < 256 && HexDigitsValue(h[4..]) < 256
  {
    var rg, gb, b := h[..2], h[2..4], h[4..];
    assert h == rg + h[2..] && h[2..] == gb + b;
    assert Pow16(2) == 256 && Pow16(4) == 65536;
    HexDigitsConcat(rg, h[2..]);
    HexDigitsConcat(gb, b);
    HexDigitsBelow(rg);
    HexDigitsBelow(gb);
    HexDigitsBelow(b);
  }

  /** For six hex digits after a `#`, red, green and blue are the values of
      the first, second and third digit pairs. */
  lemma SixDigitChannels(hex: string, h: string)
    requires |h| == 6 && forall i :: 0 <= i < 6 ==> IsHexDigit(h[i])
    requires |hex| > 0 && hex[0] == '#' && hex[1..] == h
    ensures var num := ColorNumber(hex);
      num == HexDigitsValue(h) && Red(num) == HexDigitsValue(h[..2]) &&
      Green(num) == HexDigitsValue(h[2..4]) && Blue(num) == HexDigitsValue(h[4..])
  {
    SixDigitNumber(hex, h);
    SixDigitsAsBytes(h);
    ChannelsOfBytes(HexDigitsValue(h), HexDigitsValue(h[..2]), HexDigitsValue(h[2..4]), HexDigitsValue(h[4..]));
  }

  /** Six hex digits after a `#` are read whole. */
  lemma SixDigitNumber(hex: string, h: string)
    requires |h| == 6 && forall i :: 0 <= i < 6 ==> IsHexDigit(h[i])
    requires |hex| > 0 && hex[0] == '#' && hex[1..] == h
    ensures ColorNumber(hex) == HexDigitsValue(h)
  {
    assert ColorDigits(hex) == h;
    assert HexPrefixLength(h) == 6;
    assert h[..6] == h;
  }

  /** Three digits read as their doubled six-digit form. */
  lemma ShortFormIsDoubled(h: string)
    requires |h| == 3
    ensures IsColorDark("#" + h, None) == IsColorDark("#" + [h[0], h[0], h[1], h[1], h[2], h[2]], None)
  {
    assert StripHash("#" + h) == h;
    var d := [h[0], h[0], h[1], h[1], h[2], h[2]];
    assert StripHash("#" + d) == d;
  }

  /** The leading `#` is optional. */
  lemma HashIsOptional(h: string, alpha: Option<real>)
    requires h == [] || h[0] != '#'
    ensures IsColorDark("#" + h, alpha) == IsColorDark(h, alpha)
  {
    assert StripHash("#" + h) == h;
  }

  /** Opaque black, written short, is dark. */
  lemma BlackIsDark()
    ensures IsColorDark("#000", None)
  {
    var d := "000000";
    assert ColorDigits("#000") == d;
    assert HexPrefixLength(d) == 6;
    assert d[..6] == d;
    ZeroDigits(d);
    assert ColorNumber("#000") == 0;
  }

  /** Opaque white is not dark. */
  lemma WhiteIsLight()
    ensures !IsColorDark("#FFFFFF", None)
  {
    var ff, white := "FF", "FFFFFF";
    assert ff == [] + ['F'] + ['F'];
    HexDigitsPush([], 'F');
    HexDigitsPush([] + ['F'], 'F');
    assert white[..2] == ff && white[2..4] == ff && white[4..] == ff;
    var hex := "#FFFFFF";
    assert hex[1..] == white;
    SixDigitChannels(hex, white);
  }

  lemma {:induction false} ZeroDigits(s: string)
    requires forall i :: 0 <= i < |s| ==> s[i] == '0'
    ensures HexDigitsValue(s) == 0
    decreases |s|
  {
    if s != [] {
      ZeroDigits(s[..|s| - 1]);
    }
  }

  /** A fully transparent colour is never dark: only white shows. */
  lemma TransparentIsLight(hex: string)
    ensures !IsColorDark(hex, Some(0.0))
  {
  }

  /** Fully opaque, the colour is dark exactly when its own luminance is
      below 140. */
  lemma OpaqueThreshold(hex: string)
    ensures var num := ColorNumber(hex);
      IsColorDark(hex, None) <==> Brightness(num) < 140.0
  {
  }

  lemma BrightnessAtMost255(num: nat)
    requires num < 16777216
    ensures 0.0 <= Brightness(num) <= 255.0
  {
    ChannelsOfNumber(num);
  }

  /** Products with a non-negative factor keep their order. */
  lemma ScaleMonotone(a: real, b: real, k: real)
    requires a <= b && 0.0 <= k
    ensures a * k <= b * k
  {
    assert b * k - a * k == (b - a) * k;
  }

  /** Blending a brightness of at most 255 over white with more opacity
      gives no more brightness. */
  lemma BlendMonotone(l: real, a: real, b: real)
    requires l <= 255.0 && 0.0 <= a <= b
    ensures Luminance(l, b) <= Luminance(l, a)
  {
    assert l * a + 255.0 * (1.0 - a) == 255.0 - a * (255.0 - l);
    assert l * b + 255.0 * (1.0 - b) == 255.0 - b * (255.0 - l);
    ScaleMonotone(a, b, 255.0 - l);
  }

  /** Laying a colour on thicker never makes it lighter: a colour dark at
      opacity `a` is dark at every opacity from `a` up. */
  lemma DarkerWhenOpaquer(hex: string, a: real, b: real)
    requires 0.0 <= a <= b
    requires IsColorDark(hex, Some(a))
    ensures IsColorDark(hex, Some(b))
  {
    var num := ColorNumber(hex);
    BrightnessAtMost255(num);
    var l := Brightness(num);
    assert Luminance(l, a) < 140.0;
    BlendMonotone(l, a, b);
  }
}
