/** The colour arithmetic of `scripts/color-conversions.js`: parsing `#rrggbb`
    colours, RGB to HSL, and the WCAG 2.0 relative luminance and contrast ratio.
    Numbers are exact reals; the one transcendental step, raising to the power
    2.4, is a parameter (see `Power`). */
module ColorConversions {

  import opened Wrappers

  // ---------------------------------------------------------------------------
  // Hex colours
  // ---------------------------------------------------------------------------

  type Byte = x: int | 0 <= x < 256

  /** A parsed colour: the `{ r, g, b }` object `hexToRgb` returns. */
  datatype Rgb = Rgb(r: Byte, g: Byte, b: Byte)

  /** One character of the class `[a-f\d]` under the `i` flag. */
  predicate IsHexDigit(c: char)
  {
    '0' <= c <= '9' || 'a' <= c <= 'f' || 'A' <= c <= 'F'
  }

  /** `parseInt(c, 16)` on one hex digit. */
  function HexDigitValue(c: char): (v: nat)
    requires IsHexDigit(c)
    ensures v < 16
  {
    if '0' <= c <= '9' then c as int - '0' as int
    else if 'a' <= c <= 'f' then c as int - 'a' as int + 10
    else c as int - 'A' as int + 10
  }

  predicate AllHexDigits(s: string)
  {
    forall i :: 0 <= i < |s| ==> IsHexDigit(s[i])
  }

  /** The language of `/^#?([a-f\d]{2})([a-f\d]{2})([a-f\d]{2})$/i`: an optional
      `#` and exactly six hex digits, nothing before or after. */
  predicate IsHexColor(s: string)
  {
    (|s| == 6 && AllHexDigits(s)) || (|s| == 7 && s[0] == '#' && AllHexDigits(s[1..]))
  }

  /** The six digits the three capture groups cover. */
  function HexDigits(s: string): (d: string)
    requires IsHexColor(s)
    ensures |d| == 6 && AllHexDigits(d)
  {
    if |s| == 7 then s[1..] else s
  }

  /** `parseInt(pair, 16)` on one two-digit group. */
  function ParsePair(hi: char, lo: char): (v: Byte)
    requires IsHexDigit(hi) && IsHexDigit(lo)
  {
    HexDigitValue(hi) * 16 + HexDigitValue(lo)
  }

  /** `hexToRgb(hex)`: `null` (here `None`) unless the whole input is a hex
      colour; otherwise each channel is `16 * d1 + d2` of its digit pair. */
  function HexToRgb(hex: string): (r: Option<Rgb>)
    ensures r.Some? <==> IsHexColor(hex)
    ensures r.Some? ==>
      var d := HexDigits(hex);
      r.value.r == 16 * HexDigitValue(d[0]) + HexDigitValue(d[1]) &&
      r.value.g == 16 * HexDigitValue(d[2]) + HexDigitValue(d[3]) &&
      r.value.b == 16 * HexDigitValue(d[4]) + HexDigitValue(d[5])
  {
    if !IsHexColor(hex) then None
    else
      var d := HexDigits(hex);
      Some(Rgb(ParsePair(d[0], d[1]), ParsePair(d[2], d[3]), ParsePair(d[4], d[5])))
  }

  /** `hexToRgb(hex, true)`: the same three numbers as an array `[r, g, b]`. */
  function HexToRgbArray(hex: string): (r: Option<seq<Byte>>)
    ensures r.Some? <==> IsHexColor(hex)
    ensures r.Some? ==> |r.value| == 3
  {
    if !IsHexColor(hex) then None
    else
      var d := HexDigits(hex);
      Some([ParsePair(d[0], d[1]), ParsePair(d[2], d[3]), ParsePair(d[4], d[5])])
  }

  /** `returnArray` changes the shape of the answer, never the numbers. */
  lemma ArrayFormAgrees(hex: string)
    ensures HexToRgbArray(hex).Some? <==> HexToRgb(hex).Some?
    ensures HexToRgb(hex).Some? ==>
      var c := HexToRgb(hex).value;
      HexToRgbArray(hex).value == [c.r, c.g, c.b]
  {
  }

  /** The lower-case hex digit for `0 <= n < 16`. */
  function HexDigitChar(n: nat): (c: char)
    requires n < 16
    ensures IsHexDigit(c) && HexDigitValue(c) == n
  {
    if n < 10 then ('0' as int + n) as char else ('a' as int + n - 10) as char
  }

  /** Two hex digits for one channel. */
  function FormatByte(v: Byte): (s: string)
    ensures |s| == 2 && AllHexDigits(s)
    ensures 16 * HexDigitValue(s[0]) + HexDigitValue(s[1]) == v
  {
    [HexDigitChar(v / 16), HexDigitChar(v % 16)]
  }

  /** Writing a colour as `#rrggbb` with lower-case digits. */
  function FormatHex(c: Rgb): (s: string)
    ensures IsHexColor(s) && s[0] == '#'
  {
    "#" + FormatByte(c.r) + FormatByte(c.g) + FormatByte(c.b)
  }

  /** Every colour survives writing it out and parsing it back, with or without
      the leading `#`. */
  lemma {:induction false} FormatHexRoundTrip(c: Rgb)
    ensures HexToRgb(FormatHex(c)) == Some(c)
    ensures HexToRgb(FormatHex(c)[1..]) == Some(c)
  {
    var s := FormatHex(c);
    var d := HexDigits(s);
    assert d == FormatByte(c.r) + FormatByte(c.g) + FormatByte(c.b);
    assert d[0..2] == FormatByte(c.r) && d[2..4] == FormatByte(c.g) && d[4..6] == FormatByte(c.b);
    assert HexDigits(s[1..]) == d;
  }

  /** ASCII upper-casing, as the `i` flag compares letters. */
  function UpperChar(c: char): (u: char)
  {
    if 'a' <= c <= 'z' then (c as int - 32) as char else c
  }

  function Upper(s: string): (u: string)
    ensures |u| == |s|
    ensures forall i :: 0 <= i < |s| ==> u[i] == UpperChar(s[i])
  {
    seq(|s|, i requires 0 <= i < |s| => UpperChar(s[i]))
  }

  lemma UpperHexDigit(c: char)
    ensures IsHexDigit(UpperChar(c)) <==> IsHexDigit(c)
    ensures IsHexDigit(c) ==> HexDigitValue(UpperChar(c)) == HexDigitValue(c)
  {
  }

  /** Upper- and lower-case spellings of a colour parse alike, and are rejected alike. */
  lemma {:induction false} HexToRgbIgnoresCase(hex: string)
    ensures HexToRgb(Upper(hex)) == HexToRgb(hex)
  {
    var u := Upper(hex);
    forall i | 0 <= i < |hex|
      ensures IsHexDigit(u[i]) <==> IsHexDigit(hex[i])
      ensures IsHexDigit(hex[i]) ==> HexDigitValue(u[i]) == HexDigitValue(hex[i])
    {
      UpperHexDigit(hex[i]);
    }
    if |hex| == 7 {
      assert AllHexDigits(u[1..]) <==> AllHexDigits(hex[1..]) by {
        assert forall i :: 0 <= i < 6 ==> u[1..][i] == u[i + 1] && hex[1..][i] == hex[i + 1];
      }
    }
    assert IsHexColor(u) <==> IsHexColor(hex);
    if IsHexColor(hex) {
      var du, dh := HexDigits(u), HexDigits(hex);
      assert forall i :: 0 <= i < 6 ==> HexDigitValue(du[i]) == HexDigitValue(dh[i]) by {
        if |hex| == 7 {
          assert forall i :: 0 <= i < 6 ==> du[i] == u[i + 1] && dh[i] == hex[i + 1];
        }
      }
    }
  }

  // ---------------------------------------------------------------------------
  // RGB to HSL
  // ---------------------------------------------------------------------------

  /** A channel scaled from `0..255` to `[0, 1]` (`v /= 255`). */
  function Scaled(value: Byte): (v: real)
    ensures 0.0 <= v <= 1.0
    ensures value == 0 <==> v == 0.0
    ensures value == 255 <==> v == 1.0
  {
    value as real / 255.0
  }

  /** `{ h, s, l }`: hue in degrees, saturation and lightness in percent. */
  datatype Hsl = Hsl(h: real, s: real, l: real)

  function Max3(a: real, b: real, c: real): (m: real)
    ensures m >= a && m >= b && m >= c
    ensures m == a || m == b || m == c
  {
    if a >= b && a >= c then a else if b >= c then b else c
  }

  function Min3(a: real, b: real, c: real): (m: real)
    ensures m <= a && m <= b && m <= c
    ensures m == a || m == b || m == c
  {
    if a <= b && a <= c then a else if b <= c then b else c
  }

  predicate IsGrey(c: Rgb)
  {
    c.r == c.g == c.b
  }

  /** The hue before scaling to degrees: which channel is largest picks the
      sector, checked red first, then green. */
  function HueSector(r1: real, g1: real, b1: real, maxColor: real, minColor: real): real
    requires maxColor > minColor
  {
    if r1 == maxColor then (g1 - b1) / (maxColor - minColor)
    else if g1 == maxColor then 2.0 + (b1 - r1) / (maxColor - minColor)
    else 4.0 + (r1 - g1) / (maxColor - minColor)
  }

  /** `rgbToHsl([r, g, b])`. */
  function RgbToHsl(c: Rgb): (hsl: Hsl)
    ensures 0.0 <= hsl.l <= 100.0
    ensures 0.0 <= hsl.s <= 100.0
    ensures 0.0 <= hsl.h < 360.0
    ensures hsl.s == 0.0 <==> IsGrey(c)
  {
    var r1, g1, b1 := Scaled(c.r), Scaled(c.g), Scaled(c.b);
    var maxColor, minColor := Max3(r1, g1, b1), Min3(r1, g1, b1);
    var L := (maxColor + minColor) / 2.0;
    var S :=
      if maxColor == minColor then 0.0
      else if L < 0.5 then Ratio(maxColor - minColor, maxColor + minColor)
      else Ratio(maxColor - minColor, 2.0 - maxColor - minColor);
    var H := if maxColor == minColor then 0.0 else HueSector(r1, g1, b1, maxColor, minColor);
    SectorBounds(r1, g1, b1, maxColor, minColor);
    var h := H * 60.0;
    Hsl(if h < 0.0 then h + 360.0 else h, S * 100.0, L * 100.0)
  }

  lemma SectorBounds(r1: real, g1: real, b1: real, maxColor: real, minColor: real)
    requires maxColor == Max3(r1, g1, b1) && minColor == Min3(r1, g1, b1)
    ensures maxColor > minColor ==> -1.0 <= HueSector(r1, g1, b1, maxColor, minColor) <= 5.0
    ensures maxColor > minColor && HueSector(r1, g1, b1, maxColor, minColor) < 0.0 ==>
      HueSector(r1, g1, b1, maxColor, minColor) >= -1.0 && r1 == maxColor
  {
    if maxColor > minColor {
      var d := maxColor - minColor;
      assert -d <= g1 - b1 <= d && -d <= b1 - r1 <= d && -d <= r1 - g1 <= d;
      DivBounds(g1 - b1, d);
      DivBounds(b1 - r1, d);
      DivBounds(r1 - g1, d);
    }
  }

  lemma DivBounds(x: real, d: real)
    requires d > 0.0 && -d <= x <= d
    ensures -1.0 <= x / d <= 1.0
  {
  }

  /** The hue names the largest channel: red around 0 degrees, green
      between 60 and 180, blue between 180 and 300; ties go to red, then green. */
  lemma HueFollowsLargestChannel(c: Rgb)
    requires !IsGrey(c)
    ensures c.r >= c.g && c.r >= c.b ==> RgbToHsl(c).h <= 60.0 || RgbToHsl(c).h >= 300.0
    ensures c.g > c.r && c.g >= c.b ==> 60.0 <= RgbToHsl(c).h <= 180.0
    ensures c.b > c.r && c.b > c.g ==> 180.0 <= RgbToHsl(c).h <= 300.0
  {
    var r1, g1, b1 := Scaled(c.r), Scaled(c.g), Scaled(c.b);
    var maxColor, minColor := Max3(r1, g1, b1), Min3(r1, g1, b1);
    ScaledMonotone(c.r, c.g);
    ScaledMonotone(c.g, c.b);
    ScaledMonotone(c.r, c.b);
    SectorBounds(r1, g1, b1, maxColor, minColor);
    var d := maxColor - minColor;
    assert d > 0.0;
    DivBounds(g1 - b1, d);
    DivBounds(b1 - r1, d);
    DivBounds(r1 - g1, d);
  }

  lemma ScaledMonotone(a: Byte, b: Byte)
    ensures a < b <==> Scaled(a) < Scaled(b)
    ensures a == b <==> Scaled(a) == Scaled(b)
  {
  }

  /** The primaries and their mixes land on their textbook hues at full
      saturation and half lightness. */
  lemma PrimaryHues()
    ensures RgbToHsl(Rgb(255, 0, 0)) == Hsl(0.0, 100.0, 50.0)
    ensures RgbToHsl(Rgb(0, 255, 0)) == Hsl(120.0, 100.0, 50.0)
    ensures RgbToHsl(Rgb(0, 0, 255)) == Hsl(240.0, 100.0, 50.0)
    ensures RgbToHsl(Rgb(255, 255, 0)) == Hsl(60.0, 100.0, 50.0)
    ensures RgbToHsl(Rgb(255, 0, 255)) == Hsl(300.0, 100.0, 50.0)
  {
  }

  /** Grey input: no hue, no saturation, and lightness is the channel as a percentage. */
  lemma GreyHsl(v: Byte)
    ensures RgbToHsl(Rgb(v, v, v)) == Hsl(0.0, 0.0, 100.0 * v as real / 255.0)
  {
  }

  // ---------------------------------------------------------------------------
  // Relative luminance and contrast (WCAG 2.0)
  // ---------------------------------------------------------------------------

  /** `x => Math.pow(x, 2.4)`, kept abstract: all the model relies on is that it
      is non-negative on non-negative input and fixes 1, which IEEE `pow` does
      exactly. */
  type Power = f: real -> real | (forall x :: 0.0 <= x ==> 0.0 <= f(x)) && f(1.0) == 1.0
    witness (x: real) => if x < 0.0 then 0.0 else x

  /** The per-channel step inside `luminance`: scale, then linearise, with the
      straight segment up to 0.03928. */
  function LuminanceChannel(pow: Power, value: Byte): (a: real)
    ensures a >= 0.0
    ensures value == 0 ==> a == 0.0
    ensures value == 255 ==> a == 1.0
  {
    var v := Scaled(value);
    if v <= 0.03928 then v / 12.92 else pow((v + 0.055) / 1.055)
  }

  /** The WCAG weighting of linear red, green and blue; the weights add up to
      1, so grey in gives the same grey out. */
  function Weighted(r: real, g: real, b: real): (l: real)
    ensures r >= 0.0 && g >= 0.0 && b >= 0.0 ==> l >= 0.0
    ensures r == g == b ==> l == r
  {
    0.2126 * r + 0.7152 * g + 0.0722 * b
  }

  /** `luminance(r, g, b)`: the weighted sum of the linearised channels. */
  function Luminance(pow: Power, c: Rgb): (l: real)
    ensures l >= 0.0
  {
    Weighted(LuminanceChannel(pow, c.r), LuminanceChannel(pow, c.g), LuminanceChannel(pow, c.b))
  }

  /** Black has luminance 0 and white luminance 1, whatever the gamma curve. */
  lemma LuminanceExtremes(pow: Power)
    ensures Luminance(pow, Rgb(0, 0, 0)) == 0.0
    ensures Luminance(pow, Rgb(255, 255, 255)) == 1.0
  {
  }

  /** The sign of a product with a positive factor is the sign of the other factor. */
  lemma ProductSign(a: real, b: real)
    requires b > 0.0
    ensures a * b >= 0.0 <==> a >= 0.0
  {
    if a < 0.0 {
      assert -a * b > 0.0;
    }
  }

  /** The quotient of two positive quantities, and how it compares with 1. */
  function Ratio(x: real, y: real): (q: real)
    requires 0.0 < x && 0.0 < y
    ensures 0.0 < q
    ensures q >= 1.0 <==> x >= y
    ensures q <= 1.0 <==> x <= y
  {
    var q := x / y;
    assert q * y == x;
    assert q * y - y == (q - 1.0) * y && y - q * y == (1.0 - q) * y;
    ProductSign(q - 1.0, y);
    ProductSign(1.0 - q, y);
    q
  }

  lemma RatioReciprocal(x: real, y: real)
    requires 0.0 < x && 0.0 < y
    ensures Ratio(x, y) * Ratio(y, x) == 1.0
  {
    assert (x / y) * (y / x) == (x * y) / (y * x);
  }

  /** The WCAG contrast ratio of two luminances, `(L1 + 0.05) / (L2 + 0.05)`:
      at least 1 exactly when the first is the lighter. */
  function ContrastOf(l1: real, l2: real): (ratio: real)
    requires l1 >= 0.0 && l2 >= 0.0
    ensures ratio > 0.0
    ensures ratio >= 1.0 <==> l1 >= l2
  {
    Ratio(l1 + 0.05, l2 + 0.05)
  }

  /** `contrast(rgb1, rgb2)`, in argument order. */
  function Contrast(pow: Power, c1: Rgb, c2: Rgb): (ratio: real)
    ensures ratio > 0.0
    ensures ratio >= 1.0 <==> Luminance(pow, c1) >= Luminance(pow, c2)
  {
    ContrastOf(Luminance(pow, c1), Luminance(pow, c2))
  }

  /** Swapping the arguments of `contrast` inverts the ratio. */
  lemma ContrastReciprocal(pow: Power, c1: Rgb, c2: Rgb)
    ensures Contrast(pow, c1, c2) * Contrast(pow, c2, c1) == 1.0
  {
    RatioReciprocal(Luminance(pow, c1) + 0.05, Luminance(pow, c2) + 0.05);
  }

  /** White against black is 21, and black against white its inverse. */
  lemma ContrastBlackWhite(pow: Power)
    ensures Contrast(pow, Rgb(255, 255, 255), Rgb(0, 0, 0)) == 21.0
    ensures Contrast(pow, Rgb(0, 0, 0), Rgb(255, 255, 255)) * 21.0 == 1.0
  {
    LuminanceExtremes(pow);
  }

  /** A colour's ratio against black is its luminance's ratio against 0. */
  lemma AgainstBlack(pow: Power, c: Rgb)
    ensures Contrast(pow, c, Rgb(0, 0, 0)) == ContrastOf(Luminance(pow, c), 0.0)
  {
    LuminanceExtremes(pow);
  }

  /** White's ratio against a colour is 1's ratio against its luminance. */
  lemma WhiteAgainst(pow: Power, c: Rgb)
    ensures Contrast(pow, Rgb(255, 255, 255), c) == ContrastOf(1.0, Luminance(pow, c))
  {
    LuminanceExtremes(pow);
  }

  /** A luminance's ratio against black times white's ratio against it is
      always 21: lightening a colour gains against black exactly what it loses
      against white. */
  lemma BlackWhiteProduct(l: real)
    requires l >= 0.0
    ensures ContrastOf(l, 0.0) * ContrastOf(1.0, l) == 21.0
  {
    var x := l + 0.05;
    assert (x / 0.05) * (1.05 / x) == (x * 1.05) / (0.05 * x);
  }

  /** Black beats white exactly when `(L + 0.05)` squared exceeds
      `0.05 * 1.05`, the point where the two ratios are equal. */
  lemma BlackBeatsWhite(l: real)
    requires l >= 0.0
    ensures ContrastOf(l, 0.0) > ContrastOf(1.0, l) <==> (l + 0.05) * (l + 0.05) > 0.0525
  {
    var x := l + 0.05;
    var a, b := x / 0.05, 1.05 / x;
    assert ContrastOf(l, 0.0) == a && ContrastOf(1.0, l) == b;
    var c := 0.05 * x;
    assert a * c == x * x;
    assert b * c == 0.0525;
    assert (b - a) * c == b * c - a * c;
    ProductSign(b - a, c);
  }

  /** `checksRGB(color)` on a channel already scaled to `[0, 1]`. */
  function ChecksRgb(pow: Power, color: real): (a: real)
    requires color >= 0.0
    ensures a >= 0.0
  {
    if color <= 0.03928 then color / 12.92 else pow((color + 0.055) / 1.055)
  }

  /** The `{ r, g, b }` object `getColorObject` builds: linear channel values. */
  datatype Linear = Linear(r: real, g: real, b: real)

  /** `getColorObject(color)`: each channel scaled and passed through `checksRGB`. */
  function GetColorObject(pow: Power, c: Rgb): (o: Linear)
    ensures o.r >= 0.0 && o.g >= 0.0 && o.b >= 0.0
  {
    Linear(ChecksRgb(pow, Scaled(c.r)), ChecksRgb(pow, Scaled(c.g)), ChecksRgb(pow, Scaled(c.b)))
  }

  /** `checksRGB` after scaling is the per-channel step of `luminance`. */
  lemma ChecksRgbAgrees(pow: Power, value: Byte)
    ensures ChecksRgb(pow, Scaled(value)) == LuminanceChannel(pow, value)
  {
  }

  /** `checksRGB` is the transform `luminance` applies inline, so the weighted
      sum `calculateRatio` forms is `luminance` of the same colour. */
  lemma ColorObjectLuminance(pow: Power, c: Rgb)
    ensures var o := GetColorObject(pow, c); Weighted(o.r, o.g, o.b) == Luminance(pow, c)
  {
    ChecksRgbAgrees(pow, c.r);
    ChecksRgbAgrees(pow, c.g);
    ChecksRgbAgrees(pow, c.b);
  }

  /** The branch at the end of `calculateRatio`: the lighter luminance's term
      over the darker's; on equal luminance the second branch is taken. */
  function LighterOverDarker(l1: real, l2: real): (ratio: real)
    requires l1 >= 0.0 && l2 >= 0.0
    ensures ratio >= 1.0
  {
    if l1 > l2 then ContrastOf(l1, l2) else ContrastOf(l2, l1)
  }

  /** Lighter over darker is the larger of the two contrast orders, and so
      does not depend on the order of its arguments. */
  lemma LighterOverDarkerIsMax(l1: real, l2: real)
    requires l1 >= 0.0 && l2 >= 0.0
    ensures LighterOverDarker(l1, l2) >= ContrastOf(l1, l2)
    ensures LighterOverDarker(l1, l2) >= ContrastOf(l2, l1)
    ensures LighterOverDarker(l1, l2) == ContrastOf(l1, l2) ||
            LighterOverDarker(l1, l2) == ContrastOf(l2, l1)
    ensures LighterOverDarker(l1, l2) == LighterOverDarker(l2, l1)
  {
    if l1 == l2 {
      assert ContrastOf(l1, l2) == ContrastOf(l2, l1);
    }
  }

  /** `calculateRatio(color1, color2)`. */
  function CalculateRatio(pow: Power, c1: Rgb, c2: Rgb): (ratio: real)
    ensures ratio >= 1.0
  {
    var o1, o2 := GetColorObject(pow, c1), GetColorObject(pow, c2);
    LighterOverDarker(Weighted(o1.r, o1.g, o1.b), Weighted(o2.r, o2.g, o2.b))
  }

  /** The luminances `calculateRatio` compares are those `luminance` computes. */
  lemma CalculateRatioOfLuminances(pow: Power, c1: Rgb, c2: Rgb)
    ensures CalculateRatio(pow, c1, c2) == LighterOverDarker(Luminance(pow, c1), Luminance(pow, c2))
  {
    ColorObjectLuminance(pow, c1);
    ColorObjectLuminance(pow, c2);
  }

  /** The ratio is the larger of the two `contrast` orders. */
  lemma CalculateRatioIsMaxContrast(pow: Power, c1: Rgb, c2: Rgb)
    ensures CalculateRatio(pow, c1, c2) >= Contrast(pow, c1, c2)
    ensures CalculateRatio(pow, c1, c2) >= Contrast(pow, c2, c1)
    ensures CalculateRatio(pow, c1, c2) == Contrast(pow, c1, c2) ||
            CalculateRatio(pow, c1, c2) == Contrast(pow, c2, c1)
  {
    CalculateRatioOfLuminances(pow, c1, c2);
    LighterOverDarkerIsMax(Luminance(pow, c1), Luminance(pow, c2));
  }

  /** The order of the two colours does not matter. */
  lemma CalculateRatioSymmetric(pow: Power, c1: Rgb, c2: Rgb)
    ensures CalculateRatio(pow, c1, c2) == CalculateRatio(pow, c2, c1)
  {
    CalculateRatioOfLuminances(pow, c1, c2);
    CalculateRatioOfLuminances(pow, c2, c1);
    LighterOverDarkerIsMax(Luminance(pow, c1), Luminance(pow, c2));
  }
}
