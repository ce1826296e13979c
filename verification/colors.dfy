/** The colour value classes: RGB with its range-checked constructor, RGBA,
    HSL, HSV and ColorData, with hex serialisation, luma and the colorsys
    conversions between them. */
module Colors {
  import opened Wrappers
  import opened Numeric
  import Text
  import Gamma
  import ColorSys

  /** A channel value the RGB constructor accepts. */
  type Channel = c: int | 0 <= c <= 255

  /** An RGB colour. Every value of this type passed the constructor's check. */
  datatype Rgb = Rgb(r: Channel, g: Channel, b: Channel)

  /** An RGB colour with an alpha in [0, 1]. */
  datatype Rgba = Rgba(rgb: Rgb, a: real)

  datatype Hsl = Hsl(h: real, s: real, l: real)

  datatype Hsv = Hsv(h: real, s: real, v: real)

  /** An RGB colour with the share of the image it covers. */
  datatype ColorData = ColorData(rgb: Rgb, coverage: real)

  /** `RGB(r, g, b)`: raises ValueError unless every channel is in 0..255. */
  function MakeRgb(r: int, g: int, b: int): (res: Result<Rgb>)
    ensures res.Ok? <==> 0 <= r <= 255 && 0 <= g <= 255 && 0 <= b <= 255
    ensures res.Ok? ==> res.value.r == r && res.value.g == g && res.value.b == b
    ensures res.Err? ==> res.fault.ValueError?
  {
    if 0 <= r <= 255 && 0 <= g <= 255 && 0 <= b <= 255 then Ok(Rgb(r, g, b))
    else Err(ValueError("RGB values must be between 0 and 255."))
  }

  /** `RGBA(r, g, b, a)`: the channels are checked first, then the alpha. */
  function MakeRgba(r: int, g: int, b: int, a: real): (res: Result<Rgba>)
    ensures res.Ok? <==> 0 <= r <= 255 && 0 <= g <= 255 && 0 <= b <= 255 && 0.0 <= a <= 1.0
    ensures res.Ok? ==> res.value.rgb == Rgb(r, g, b) && res.value.a == a
    ensures res.Err? ==> res.fault.ValueError?
    ensures MakeRgb(r, g, b).Err? ==> res == Err(MakeRgb(r, g, b).fault)
  {
    var rgb :- MakeRgb(r, g, b);
    if 0.0 <= a <= 1.0 then Ok(Rgba(rgb, a))
    else Err(ValueError("Alpha value must be between 0.0 and 1.0."))
  }

  /** `RGB.hex`: '#' and two lower-case hex digits per channel. */
  function Hex(c: Rgb): (s: string)
  {
    "#" + Text.HexField(c.r, false) + Text.HexField(c.g, false) + Text.HexField(c.b, false)
  }

  /** The hex string is seven characters and reads back as the colour. */
  lemma HexRoundTrip(c: Rgb)
    ensures |Hex(c)| == 7 && Hex(c)[0] == '#'
    ensures Text.HexValue(Hex(c)[1..3]) == c.r
    ensures Text.HexValue(Hex(c)[3..5]) == c.g
    ensures Text.HexValue(Hex(c)[5..7]) == c.b
  {
    var s := Hex(c);
    assert s[1..3] == Text.HexField(c.r, false);
    assert s[3..5] == Text.HexField(c.g, false);
    assert s[5..7] == Text.HexField(c.b, false);
    Text.HexFieldRoundTrip(c.r, false);
    Text.HexFieldRoundTrip(c.g, false);
    Text.HexFieldRoundTrip(c.b, false);
  }

  /** Every character of the hex string is '#' or a lower-case hex digit. */
  lemma HexAlphabet(c: Rgb)
    ensures forall k :: 0 <= k < |Hex(c)| ==> Hex(c)[k] == '#' || Hex(c)[k] in Text.LowerDigits
  {
    Text.HexFieldDigits(c.r, false);
    Text.HexFieldDigits(c.g, false);
    Text.HexFieldDigits(c.b, false);
    var s := Hex(c);
    assert s[1..3] == Text.HexField(c.r, false);
    assert s[3..5] == Text.HexField(c.g, false);
    assert s[5..7] == Text.HexField(c.b, false);
    forall k | 1 <= k < 7
      ensures s[k] in Text.LowerDigits
    {
      if k < 3 {
        assert s[k] == s[1..3][k - 1];
      } else if k < 5 {
        assert s[k] == s[3..5][k - 3];
      } else {
        assert s[k] == s[5..7][k - 5];
      }
    }
  }

  /** Distinct colours have distinct hex strings. */
  lemma HexInjective(c: Rgb, d: Rgb)
    ensures Hex(c) == Hex(d) <==> c == d
  {
    HexRoundTrip(c);
    HexRoundTrip(d);
  }

  /** The documented example: orange is '#ff8000'. */
  lemma HexExample()
    ensures Hex(Rgb(255, 128, 0)) == "#ff8000"
  {
    assert Text.HexDigits(255, false) == "ff";
    assert Text.HexDigits(128, false) == "80";
  }

  /** `RGBA.hex`: the colour's hex without the alpha. */
  function RgbaHex(c: Rgba): string
  {
    Hex(c.rgb)
  }

  /** The alpha byte `round(a * 255)`. */
  function AlphaByte(a: real): int
  {
    RoundHalfEven(a * 255.0)
  }

  /** `RGBA.hex8`: the hex followed by the alpha byte as two hex digits. */
  function Hex8(c: Rgba): (s: string)
  {
    RgbaHex(c) + Text.HexField(AlphaByte(c.a), false)
  }

  /** For an alpha in [0, 1] the hex8 string is nine characters: the hex of
      the colour, then the alpha byte in 0..255 read back from the last two. */
  lemma Hex8Layout(c: Rgba)
    requires 0.0 <= c.a <= 1.0
    ensures 0 <= AlphaByte(c.a) <= 255
    ensures |Hex8(c)| == 9 && Hex8(c)[..7] == Hex(c.rgb)
    ensures Text.HexValue(Hex8(c)[7..]) == AlphaByte(c.a)
  {
    RoundWithin(c.a * 255.0, 0, 255);
    HexRoundTrip(c.rgb);
    var s := Hex8(c);
    assert s[7..] == Text.HexField(AlphaByte(c.a), false);
    Text.HexFieldRoundTrip(AlphaByte(c.a), false);
  }

  /** The documented example: half-transparent orange is '#ff800080'. */
  lemma Hex8Example()
    ensures Hex8(Rgba(Rgb(255, 128, 0), 0.5)) == "#ff800080"
  {
    HexExample();
    assert AlphaByte(0.5) == 128 by {
      assert Floor(127.5) == 127;
    }
    assert Text.HexDigits(128, false) == "80";
  }

  function MaxChannel(c: Rgb): Channel
  {
    MaxInt(MaxInt(c.r, c.g), c.b)
  }

  function MinChannel(c: Rgb): Channel
  {
    MinInt(MinInt(c.r, c.g), c.b)
  }

  /** Channel value as a fraction of 255, the scale colorsys works on. */
  function Unit(c: Channel): real
  {
    c as real / 255.0
  }

  /** `RGB.luma` (and `RGBA.luma`, which delegates to it). */
  function Luma(pc: Gamma.PowerCurves, c: Rgb): real
  {
    Gamma.Luma(pc, c.r, c.g, c.b)
  }

  /** `RGB.hsl`: colorsys `rgb_to_hls` on the unit channels, reordered. */
  function ToHsl(c: Rgb): (x: Hsl)
  {
    ColorSys.UnitDefined(Unit(c.r), Unit(c.g), Unit(c.b));
    var (h, l, s) := ColorSys.RgbToHls(Unit(c.r), Unit(c.g), Unit(c.b));
    Hsl(h, s, l)
  }

  /** `RGB.hsv`: colorsys `rgb_to_hsv` on the unit channels. */
  function ToHsv(c: Rgb): (x: Hsv)
  {
    ColorSys.UnitDefined(Unit(c.r), Unit(c.g), Unit(c.b));
    var (h, s, v) := ColorSys.RgbToHsv(Unit(c.r), Unit(c.g), Unit(c.b));
    Hsv(h, s, v)
  }

  /** Every component of `RGB.hsl` and `RGB.hsv` is in [0, 1], hue below 1;
      grey colours have hue and saturation 0. */
  lemma CylinderRanges(c: Rgb)
    ensures 0.0 <= ToHsl(c).h < 1.0 && 0.0 <= ToHsl(c).s <= 1.0 && 0.0 <= ToHsl(c).l <= 1.0
    ensures 0.0 <= ToHsv(c).h < 1.0 && 0.0 <= ToHsv(c).s <= 1.0 && 0.0 <= ToHsv(c).v <= 1.0
    ensures c.r == c.g == c.b ==> ToHsl(c).h == 0.0 && ToHsl(c).s == 0.0
    ensures c.r == c.g == c.b ==> ToHsv(c).h == 0.0 && ToHsv(c).s == 0.0
    ensures ToHsv(c).s == 0.0 <==> c.r == c.g == c.b
    ensures ToHsv(c).v == Max3(Unit(c.r), Unit(c.g), Unit(c.b))
  {
    ColorSys.UnitDefined(Unit(c.r), Unit(c.g), Unit(c.b));
  }

  /** A colorsys channel in [0, 1] scaled back to 0..255. */
  function Scale(x: real): int
  {
    RoundHalfEven(x * 255.0)
  }

  /** `HSL.rgb`: colorsys `hls_to_rgb`, each channel rounded from the 0..255
      scale; the RGB constructor rejects out-of-range results. */
  function HslToRgb(x: Hsl): Result<Rgb>
  {
    var (r, g, b) := ColorSys.HlsToRgb(x.h, x.l, x.s);
    MakeRgb(Scale(r), Scale(g), Scale(b))
  }

  /** `HSV.rgb`, likewise through colorsys `hsv_to_rgb`. */
  function HsvToRgb(x: Hsv): Result<Rgb>
  {
    var (r, g, b) := ColorSys.HsvToRgb(x.h, x.s, x.v);
    MakeRgb(Scale(r), Scale(g), Scale(b))
  }

  /** A value in [0, 1] scales to a valid channel. */
  lemma ScaleInRange(x: real)
    requires 0.0 <= x <= 1.0
    ensures 0 <= Scale(x) <= 255
  {
    RoundWithin(x * 255.0, 0, 255);
  }

  /** A channel survives the trip to [0, 1] and back. */
  lemma ScaleUnit(c: Channel)
    ensures Scale(Unit(c)) == c
  {
    assert Unit(c) * 255.0 == c as real;
    RoundOfInteger(c);
  }

  /** `HSL.rgb` never raises for lightness and saturation in [0, 1]. */
  lemma HslToRgbAccepts(x: Hsl)
    requires 0.0 <= x.l <= 1.0 && 0.0 <= x.s <= 1.0
    ensures HslToRgb(x).Ok?
  {
    ColorSys.HlsToRgbUnit(x.h, x.l, x.s);
    var (r, g, b) := ColorSys.HlsToRgb(x.h, x.l, x.s);
    ScaleInRange(r);
    ScaleInRange(g);
    ScaleInRange(b);
  }

  /** `HSV.rgb` never raises for a non-negative hue and s, v in [0, 1]. */
  lemma HsvToRgbAccepts(x: Hsv)
    requires 0.0 <= x.h && 0.0 <= x.s <= 1.0 && 0.0 <= x.v <= 1.0
    ensures HsvToRgb(x).Ok?
  {
    ColorSys.HsvToRgbBounds(x.h, x.s, x.v);
    var (r, g, b) := ColorSys.HsvToRgb(x.h, x.s, x.v);
    MulFraction(x.v, 1.0 - x.s);
    ScaleInRange(r);
    ScaleInRange(g);
    ScaleInRange(b);
  }

  /** `rgb.hsv.rgb == rgb`: the HSV round trip is exact on every colour. */
  lemma HsvRoundTrip(c: Rgb)
    ensures HsvToRgb(ToHsv(c)) == Ok(c)
  {
    var r, g, b := Unit(c.r), Unit(c.g), Unit(c.b);
    ColorSys.HsvRoundTrip(r, g, b);
    ScaleUnit(c.r);
    ScaleUnit(c.g);
    ScaleUnit(c.b);
  }
}
