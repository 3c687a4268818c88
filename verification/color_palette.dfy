/** The colour palette's conversion of an HWB colour with opacity (hue in
    degrees; whiteness, blackness and opacity in percent) to RGBA channels and
    to a hexadecimal colour code. The hue picks one of six 60-degree sectors;
    inside a sector one channel ramps linearly between the lowest and highest
    channel value, which whiteness and blackness fix. The result is checked
    against the hwb() conversion of section 8 of CSS Color Module Level 4. */
module ColorPalette {
  import opened Common

  /** `formatValue`: round up to one decimal place, then to the nearest whole
      number. The result is within half a unit below and 0.6 above the
      input, and whole numbers are kept. */
  function FormatValue(v: real): (r: int)
    ensures v - 0.5 < r as real < v + 0.6
    ensures v == (v.Floor) as real ==> r as real == v
    ensures 0.0 <= v <= 255.0 ==> 0 <= r <= 255
  {
    var c := Ceil(v * 10.0);
    TenthsBounds(v, c);
    if v == (v.Floor) as real then RoundWhole(v.Floor); Round(c as real / 10.0)
    else Round(c as real / 10.0)
  }

  lemma RoundWhole(k: int)
    ensures Round(k as real) == k
  {
  }

  lemma TenthsBounds(v: real, c: int)
    requires c == Ceil(v * 10.0)
    ensures v <= c as real / 10.0 < v + 0.1
    ensures v == (v.Floor) as real ==> c as real / 10.0 == v
    ensures v <= 255.0 ==> c as real / 10.0 <= 255.0
  {
    if v == (v.Floor) as real {
      var k := v.Floor * 10;
      assert v * 10.0 == k as real;
      assert k as real <= c as real < k as real + 1.0;
      assert c == k;
    }
    if v <= 255.0 {
      assert v * 10.0 <= 2550.0;
      assert c <= 2550;
    }
  }

  datatype Bound = Low | High

  /** `getMinMax`: the lowest and highest channel value. When whiteness and
      blackness add up to more than 100 both are 255 · white / (white +
      black), a grey; otherwise whiteness lifts the lowest value from 0 and
      blackness lowers the highest value from 255, each only when positive. */
  function GetMinMax(kind: Bound, white: real, black: real): (r: real)
    ensures white + black > 100.0 ==> r == 255.0 / (white + black) * white
    ensures white + black <= 100.0 && kind == Low ==> r == (if white > 0.0 then 255.0 * (white / 100.0) else 0.0)
    ensures white + black <= 100.0 && kind == High ==> r == 255.0 - (if black > 0.0 then 255.0 * (black / 100.0) else 0.0)
  {
    if white + black > 100.0 then 255.0 / (white + black) * white
    else if kind == Low then 0.0 + (if white > 0.0 then 255.0 * (white / 100.0) else 0.0)
    else 255.0 - (if black > 0.0 then 255.0 * (black / 100.0) else 0.0)
  }

  /** For whiteness and blackness that are percentages adding up to at most
      100, the channel values span [255 · white/100, 255 − 255 · black/100],
      inside [0, 255]. */
  lemma MinMaxRange(white: real, black: real)
    requires 0.0 <= white && 0.0 <= black && white + black <= 100.0
    ensures 0.0 <= GetMinMax(Low, white, black) <= GetMinMax(High, white, black) <= 255.0
    ensures GetMinMax(Low, white, black) == 255.0 * white / 100.0
    ensures GetMinMax(High, white, black) == 255.0 - 255.0 * black / 100.0
  {
  }

  /** The hue sector: `Math.floor(hue / 60) % 6`, a truncating remainder, so a
      negative hue gives a sector in -5..0. */
  function Sector(hue: real): (d: int)
    ensures -6 < d < 6
    ensures hue >= 0.0 ==> 0 <= d < 6
  {
    var q := Floor(hue / 60.0);
    assert hue >= 0.0 ==> q >= 0;
    IntRem(q, 6)
  }

  datatype Rgb = Rgb(red: real, green: real, blue: real)

  /** The sector table, sector by sector (red, green, blue): (max, min+value,
      min), (max−value, max, min), (min, max, min+value), (min, max−value,
      max), (min+value, min, max), (max, min, max−value). A sector outside
      0..5 matches no case and gives min everywhere. */
  function SectorTable(d: int, min: real, max: real, value: real): Rgb
  {
    var red := if d == 0 || d == 5 then max else if d == 4 then min + value else if d == 1 then max - value else min;
    var green := if d == 1 || d == 2 then max else if d == 0 then min + value else if d == 3 then max - value else min;
    var blue := if d == 3 || d == 4 then max else if d == 2 then min + value else if d == 5 then max - value else min;
    Rgb(red, green, blue)
  }

  /** The hue's offset into its sector, scaled to the channel span:
      `(hue % 60) * ((max - min) / 60)`. */
  function Offset(hue: real, min: real, max: real): real
  {
    JsRem(hue, 60.0) * ((max - min) / 60.0)
  }

  /** The three channels of a hue between a lowest and a highest value. */
  function ChannelsOf(hue: real, min: real, max: real): Rgb
  {
    SectorTable(Sector(hue), min, max, Offset(hue, min, max))
  }

  /** The three channels before rounding. */
  function Channels(hue: real, white: real, black: real): Rgb
  {
    ChannelsOf(hue, GetMinMax(Low, white, black), GetMinMax(High, white, black))
  }

  datatype Rgba = Rgba(red: int, green: int, blue: int, alpha: real)

  /** `hwbaToRgba` on the numbers read from "hwb(H W% B% / A%)": each channel
      through `formatValue`, and the opacity as a fraction. */
  function HwbaToRgba(hue: real, white: real, black: real, opacity: real): (r: Rgba)
    ensures r.alpha * 100.0 == opacity
    ensures var c := Channels(hue, white, black);
      && c.red - 0.5 < r.red as real < c.red + 0.6
      && c.green - 0.5 < r.green as real < c.green + 0.6
      && c.blue - 0.5 < r.blue as real < c.blue + 0.6
  {
    var c := Channels(hue, white, black);
    Rgba(FormatValue(c.red), FormatValue(c.green), FormatValue(c.blue), opacity / 100.0)
  }

  // ---------------------------------------------------------------------------
  // Properties of the channels

  /** Past 100 in total, whiteness and blackness give a grey whatever the hue. */
  lemma GreyWhenSaturated(hue: real, white: real, black: real)
    requires white + black > 100.0
    ensures var c := Channels(hue, white, black);
      c.red == c.green == c.blue == 255.0 / (white + black) * white
  {
  }

  /** The offset into a sector: for a non-negative hue, `hue % 60` is
      `hue − 60 · sector`, in [0, 60). */
  lemma SectorOffset(hue: real, s: int)
    requires hue >= 0.0 && s == Floor(hue / 60.0)
    ensures JsRem(hue, 60.0) == hue - 60.0 * s as real
    ensures 0.0 <= JsRem(hue, 60.0) < 60.0
  {
    assert Trunc(hue / 60.0) == s;
  }

  lemma ScaleWithin(f: real, d: real)
    requires 0.0 <= f <= 1.0 && d >= 0.0
    ensures 0.0 <= f * d <= d
  {
    assert f * d >= 0.0;
    assert d - f * d == d * (1.0 - f) >= 0.0;
  }

  /** For a non-negative hue, every channel lies between the lowest and the
      highest channel value. */
  lemma ChannelsWithin(hue: real, white: real, black: real)
    requires hue >= 0.0
    requires GetMinMax(Low, white, black) <= GetMinMax(High, white, black)
    ensures var c := Channels(hue, white, black);
      var min, max := GetMinMax(Low, white, black), GetMinMax(High, white, black);
      && min <= c.red <= max && min <= c.green <= max && min <= c.blue <= max
  {
    var min, max := GetMinMax(Low, white, black), GetMinMax(High, white, black);
    OffsetWithin(hue, min, max);
    TableWithin(Sector(hue), min, max, Offset(hue, min, max));
  }

  lemma OffsetWithin(hue: real, min: real, max: real)
    requires hue >= 0.0 && min <= max
    ensures 0.0 <= Offset(hue, min, max) <= max - min
  {
    SectorOffset(hue, Floor(hue / 60.0));
    ShareWithin(JsRem(hue, 60.0), max - min, Offset(hue, min, max));
  }

  /** A remainder in [0, 60) times a sixtieth of a span is within the span. */
  lemma ShareWithin(a: real, d: real, o: real)
    requires 0.0 <= a < 60.0 && d >= 0.0 && o == a * (d / 60.0)
    ensures 0.0 <= o <= d
  {
    MulDiv60(a, d);
    ScaleWithin(a / 60.0, d);
  }

  lemma MulDiv60(a: real, d: real)
    ensures a * (d / 60.0) == (a / 60.0) * d
  {
  }

  lemma TableWithin(d: int, min: real, max: real, value: real)
    requires 0.0 <= value <= max - min
    ensures var c := SectorTable(d, min, max, value);
      && min <= c.red <= max && min <= c.green <= max && min <= c.blue <= max
  {
  }

  /** A negative hue that is not a whole number of turns lands in a sector
      below 0, which no case of the table names: all three channels take the
      lowest value, a grey. The palette only produces hues in [0, 360). */
  lemma NegativeSectorGrey(hue: real, white: real, black: real)
    requires Sector(hue) < 0
    ensures var c := Channels(hue, white, black);
      c.red == c.green == c.blue == GetMinMax(Low, white, black)
  {
  }

  // ---------------------------------------------------------------------------
  // Agreement with CSS Color 4

  /** `(n + hue / 30) mod 12` from the hsl() conversion of CSS Color 4. */
  function CssK(n: real, hue: real): real
  {
    var x := n + hue / 30.0;
    x - 12.0 * Floor(x / 12.0) as real
  }

  /** The fully saturated, half-light hsl() channel n (0 red, 8 green, 4 blue)
      of a hue, in [0, 1]. */
  function CssPure(n: real, hue: real): real
  {
    var k := CssK(n, hue);
    0.5 - 0.5 * Max(-1.0, Min(Min(k - 3.0, 9.0 - k), 1.0))
  }

  /** The hwb() channel of CSS Color 4 for a pure hsl() channel value p,
      scaled to 0..255: a grey of white / (white + black) once whiteness and
      blackness reach 100 in total, otherwise p scaled by what whiteness and
      blackness leave, plus whiteness. */
  function CssHwbShade(p: real, white: real, black: real): real
  {
    var w, b := white / 100.0, black / 100.0;
    if w + b >= 1.0 then 255.0 * (w / (w + b))
    else 255.0 * (p * (1.0 - w - b) + w)
  }

  /** The hwb() channel n (0 red, 8 green, 4 blue) of CSS Color 4. */
  function CssHwb(n: real, hue: real, white: real, black: real): real
  {
    CssHwbShade(CssPure(n, hue), white, black)
  }

  /** The point a share p of the way from min to max. */
  function Lerp(min: real, max: real, p: real): real
  {
    min + p * (max - min)
  }

  /** In sector s at fraction t, the hsl() channels are the palette's own
      sector table over the span [0, 1]: (1, t, 0), (1−t, 1, 0), (0, 1, t),
      (0, 1−t, 1), (t, 0, 1), (1, 0, 1−t). */
  lemma CssPureRed(hue: real, s: int, t: real)
    requires 0 <= s < 6 && 0.0 <= t < 1.0 && hue == 60.0 * (s as real + t)
    ensures CssPure(0.0, hue) == SectorTable(s, 0.0, 1.0, t).red
  {
    var x := 0.0 + hue / 30.0;
    assert x == 2.0 * s as real + 2.0 * t;
    assert Floor(x / 12.0) == 0;
  }

  lemma CssPureGreen(hue: real, s: int, t: real)
    requires 0 <= s < 6 && 0.0 <= t < 1.0 && hue == 60.0 * (s as real + t)
    ensures CssPure(8.0, hue) == SectorTable(s, 0.0, 1.0, t).green
  {
    var x := 8.0 + hue / 30.0;
    assert x == 8.0 + 2.0 * s as real + 2.0 * t;
    if s < 2 {
      assert Floor(x / 12.0) == 0;
    } else {
      assert Floor(x / 12.0) == 1;
    }
  }

  lemma CssPureBlue(hue: real, s: int, t: real)
    requires 0 <= s < 6 && 0.0 <= t < 1.0 && hue == 60.0 * (s as real + t)
    ensures CssPure(4.0, hue) == SectorTable(s, 0.0, 1.0, t).blue
  {
    var x := 4.0 + hue / 30.0;
    assert x == 4.0 + 2.0 * s as real + 2.0 * t;
    if s < 4 {
      assert Floor(x / 12.0) == 0;
    } else {
      assert Floor(x / 12.0) == 1;
    }
  }

  /** For a hue in [0, 360) in sector s at fraction t, each channel is the
      lowest value plus the hsl() channel's share of the span, whatever the
      lowest and highest values. */
  lemma RedInSector(hue: real, min: real, max: real, s: int, t: real)
    requires 0.0 <= hue < 360.0 && s == Floor(hue / 60.0) && t == hue / 60.0 - s as real
    ensures ChannelsOf(hue, min, max).red == Lerp(min, max, CssPure(0.0, hue))
  {
    ChannelsOfSector(hue, min, max, s, t);
    TableOfPure(s, min, max, t);
    CssPureRed(hue, s, t);
  }

  lemma GreenInSector(hue: real, min: real, max: real, s: int, t: real)
    requires 0.0 <= hue < 360.0 && s == Floor(hue / 60.0) && t == hue / 60.0 - s as real
    ensures ChannelsOf(hue, min, max).green == Lerp(min, max, CssPure(8.0, hue))
  {
    ChannelsOfSector(hue, min, max, s, t);
    TableOfPure(s, min, max, t);
    CssPureGreen(hue, s, t);
  }

  lemma BlueInSector(hue: real, min: real, max: real, s: int, t: real)
    requires 0.0 <= hue < 360.0 && s == Floor(hue / 60.0) && t == hue / 60.0 - s as real
    ensures ChannelsOf(hue, min, max).blue == Lerp(min, max, CssPure(4.0, hue))
  {
    ChannelsOfSector(hue, min, max, s, t);
    TableOfPure(s, min, max, t);
    CssPureBlue(hue, s, t);
  }

  /** In a hue's own sector, the channels are the sector table at the hue's
      fraction of the span. */
  lemma ChannelsOfSector(hue: real, min: real, max: real, s: int, t: real)
    requires 0.0 <= hue < 360.0 && s == Floor(hue / 60.0) && t == hue / 60.0 - s as real
    ensures ChannelsOf(hue, min, max) == SectorTable(s, min, max, t * (max - min))
  {
    ChannelsInSector(hue, min, max, s, t);
  }

  /** A hue in [0, 360) is 60 · (s + t) for its sector s and a fraction t in
      [0, 1), and its offset is t · (max − min). */
  lemma ChannelsInSector(hue: real, min: real, max: real, s: int, t: real)
    requires 0.0 <= hue < 360.0 && s == Floor(hue / 60.0) && t == hue / 60.0 - s as real
    ensures 0 <= s < 6 && 0.0 <= t < 1.0 && hue == 60.0 * (s as real + t)
    ensures Sector(hue) == s
    ensures Offset(hue, min, max) == t * (max - min)
  {
    SectorOffset(hue, s);
    MulDiv60(JsRem(hue, 60.0), max - min);
    assert JsRem(hue, 60.0) / 60.0 == t;
  }

  /** The sector table at offset t · (max − min) is min plus the unit
      table's share of the span, channel by channel. */
  lemma TableOfPure(s: int, min: real, max: real, t: real)
    ensures SectorTable(s, min, max, t * (max - min)).red == Lerp(min, max, SectorTable(s, 0.0, 1.0, t).red)
    ensures SectorTable(s, min, max, t * (max - min)).green == Lerp(min, max, SectorTable(s, 0.0, 1.0, t).green)
    ensures SectorTable(s, min, max, t * (max - min)).blue == Lerp(min, max, SectorTable(s, 0.0, 1.0, t).blue)
  {
    var span := max - min;
    assert max - t * span == Lerp(min, max, 1.0 - t) by {
      assert (1.0 - t) * span == span - t * span;
    }
    assert min + t * span == Lerp(min, max, t);
    assert max == Lerp(min, max, 1.0);
    assert min == Lerp(min, max, 0.0);
  }

  /** The palette agrees with CSS Color 4's hwb() for every hue in [0, 360)
      and every non-negative whiteness and blackness, before rounding. */
  lemma MatchesCssHwb(hue: real, white: real, black: real)
    requires 0.0 <= hue < 360.0 && 0.0 <= white && 0.0 <= black
    ensures var c := Channels(hue, white, black);
      && c.red == CssHwb(0.0, hue, white, black)
      && c.green == CssHwb(8.0, hue, white, black)
      && c.blue == CssHwb(4.0, hue, white, black)
  {
    RedMatchesCss(hue, white, black);
    GreenMatchesCss(hue, white, black);
    BlueMatchesCss(hue, white, black);
  }

  lemma RedMatchesCss(hue: real, white: real, black: real)
    requires 0.0 <= hue < 360.0 && 0.0 <= white && 0.0 <= black
    ensures Channels(hue, white, black).red == CssHwb(0.0, hue, white, black)
  {
    RedInSector(hue, GetMinMax(Low, white, black), GetMinMax(High, white, black),
      Floor(hue / 60.0), hue / 60.0 - Floor(hue / 60.0) as real);
    ShareMatchesCss(CssPure(0.0, hue), white, black);
  }

  lemma GreenMatchesCss(hue: real, white: real, black: real)
    requires 0.0 <= hue < 360.0 && 0.0 <= white && 0.0 <= black
    ensures Channels(hue, white, black).green == CssHwb(8.0, hue, white, black)
  {
    GreenInSector(hue, GetMinMax(Low, white, black), GetMinMax(High, white, black),
      Floor(hue / 60.0), hue / 60.0 - Floor(hue / 60.0) as real);
    ShareMatchesCss(CssPure(8.0, hue), white, black);
  }

  lemma BlueMatchesCss(hue: real, white: real, black: real)
    requires 0.0 <= hue < 360.0 && 0.0 <= white && 0.0 <= black
    ensures Channels(hue, white, black).blue == CssHwb(4.0, hue, white, black)
  {
    BlueInSector(hue, GetMinMax(Low, white, black), GetMinMax(High, white, black),
      Floor(hue / 60.0), hue / 60.0 - Floor(hue / 60.0) as real);
    ShareMatchesCss(CssPure(4.0, hue), white, black);
  }

  /** One channel: the lowest value plus a share p of the span is CSS's
      hwb() shading of p, in the saturated case too, where the span is empty. */
  lemma ShareMatchesCss(p: real, white: real, black: real)
    requires 0.0 <= white && 0.0 <= black
    ensures Lerp(GetMinMax(Low, white, black), GetMinMax(High, white, black), p) == CssHwbShade(p, white, black)
  {
    var w, b := white / 100.0, black / 100.0;
    if white + black > 100.0 {
      assert GetMinMax(High, white, black) - GetMinMax(Low, white, black) == 0.0;
      assert 255.0 / (white + black) * white == 255.0 * (w / (w + b));
    } else {
      var min, max := GetMinMax(Low, white, black), GetMinMax(High, white, black);
      assert min == 255.0 * w && max - min == 255.0 * (1.0 - w - b);
      if white + black == 100.0 {
        assert max - min == 0.0;
        assert 255.0 * w == 255.0 * (w / (w + b));
      } else {
        PureShare(p, w, b);
      }
    }
  }

  lemma PureShare(p: real, w: real, b: real)
    ensures 255.0 * w + p * (255.0 * (1.0 - w - b)) == 255.0 * (p * (1.0 - w - b) + w)
  {
  }

  /** A whole turn of hue gives the same colour, for non-negative hues. */
  lemma HuePeriodic(hue: real, white: real, black: real)
    requires hue >= 0.0
    ensures Channels(hue + 360.0, white, black) == Channels(hue, white, black)
  {
    var s := Floor(hue / 60.0);
    assert Floor((hue + 360.0) / 60.0) == s + 6;
    SectorOffset(hue, s);
    SectorOffset(hue + 360.0, s + 6);
    assert IntRem(s + 6, 6) == IntRem(s, 6);
  }

  // ---------------------------------------------------------------------------
  // Hexadecimal codes

  /** `formatHexCode` on an integer: `toString(16)` (with a leading "-" for a
      negative number) padded with a "0" to at least two characters. */
  function FormatHexCode(n: int): (s: string)
    ensures |s| >= 2
    ensures 0 <= n < 256 ==> |s| == 2 && (forall i :: 0 <= i < 2 ==> IsHexDigit(s[i])) && HexValue(s) == n
  {
    var v := if n < 0 then "-" + NatToHex(-n) else NatToHex(n);
    var r := if |v| < 2 then "0" + v else v;
    if 0 <= n < 256 then
      HexValueOfNatToHex(n);
      if n >= 16 then
        assert |NatToHex(n / 16)| == 1;
        r
      else
        assert r == ['0'] + v;
        assert r[..1] == ['0'];
        r
    else r
  }

  /** `hwbaToHex`: "#" followed by the three channels and, when the opacity
      is below 100%, an alpha byte of 255 · alpha (0 for a non-positive alpha).
      An alpha byte that is not a whole number would print hexadecimal
      fractions, which this model does not render (None). */
  function HwbaToHex(hue: real, white: real, black: real, opacity: real): (r: Option<string>)
    ensures opacity >= 100.0 ==> r.Some?
    ensures r.Some? ==> |r.value| >= 7 && r.value[0] == '#'
    ensures r.Some? && opacity >= 100.0 ==>
      var c := HwbaToRgba(hue, white, black, opacity);
      && r.value == "#" + FormatHexCode(c.red) + FormatHexCode(c.green) + FormatHexCode(c.blue)
  {
    var c := HwbaToRgba(hue, white, black, opacity);
    var rgb := "#" + FormatHexCode(c.red) + FormatHexCode(c.green) + FormatHexCode(c.blue);
    var a := c.alpha;
    if a < 1.0 then
      var byte := if a > 0.0 then 255.0 * a else 0.0;
      if byte == (byte.Floor) as real then Some(rgb + FormatHexCode(byte.Floor)) else None
    else Some(rgb)
  }

  /** Reading a code back: for channels in 0..255 and full opacity the code is
      "#" and six hexadecimal digits, two per channel, that read back as the
      channels. */
  lemma HexRoundTrip(hue: real, white: real, black: real, opacity: real)
    requires opacity >= 100.0
    requires var c := HwbaToRgba(hue, white, black, opacity);
      0 <= c.red < 256 && 0 <= c.green < 256 && 0 <= c.blue < 256
    ensures var s := HwbaToHex(hue, white, black, opacity).value;
      var c := HwbaToRgba(hue, white, black, opacity);
      && |s| == 7
      && HexValue(s[1..3]) == c.red && HexValue(s[3..5]) == c.green && HexValue(s[5..7]) == c.blue
  {
    var c := HwbaToRgba(hue, white, black, opacity);
    var r, g, b := FormatHexCode(c.red), FormatHexCode(c.green), FormatHexCode(c.blue);
    var s := HwbaToHex(hue, white, black, opacity).value;
    assert s == "#" + r + g + b;
    assert s[1..3] == r && s[3..5] == g && s[5..7] == b;
  }
}
