/** Colour transforms: saturation, brightness and hue in HSV, contrast and
    temperature on the channels, and their fixed-order composition. */
module Transformation {
  import opened Wrappers
  import opened Numeric
  import ColorSys
  import opened Colors

  /** `RGB(round(r * 255), round(g * 255), round(b * 255))` of colorsys
      `hsv_to_rgb(h, s, v)`. For a hue of at least 0 and s, v in [0, 1] the
      constructor cannot raise, so the colour is returned directly. */
  function FromHsv(h: real, s: real, v: real): Rgb
    requires 0.0 <= h && 0.0 <= s <= 1.0 && 0.0 <= v <= 1.0
  {
    HsvToRgbAccepts(Hsv(h, s, v));
    HsvToRgb(Hsv(h, s, v)).value
  }

  /** `saturate(color, factor)`: S becomes `clamp(s * factor, 0, 1)`. */
  function Saturate(c: Rgb, factor: real): Rgb
  {
    CylinderRanges(c);
    var x := ToHsv(c);
    FromHsv(x.h, Clamp(Mul(x.s, factor), 0.0, 1.0), x.v)
  }

  /** `brighten(color, factor)`: V becomes `clamp(v * factor, 0, 1)`. */
  function Brighten(c: Rgb, factor: real): Rgb
  {
    CylinderRanges(c);
    var x := ToHsv(c);
    FromHsv(x.h, x.s, Clamp(Mul(x.v, factor), 0.0, 1.0))
  }

  /** `shift_hue(color, degrees)`: H becomes `(h + degrees / 360) % 1`. */
  function ShiftHue(c: Rgb, degrees: real): Rgb
  {
    CylinderRanges(c);
    var x := ToHsv(c);
    FromHsv(FMod(x.h + degrees / 360.0, 1.0), x.s, x.v)
  }

  /** A colour's HSV components are in range and convert back to the
      colour. */
  lemma HsvOfColour(c: Rgb)
    ensures var x := ToHsv(c);
      && 0.0 <= x.h < 1.0 && 0.0 <= x.s <= 1.0 && 0.0 <= x.v <= 1.0
      && FromHsv(x.h, x.s, x.v) == c
      && (c.r == c.g == c.b ==> x.s == 0.0)
  {
    CylinderRanges(c);
    HsvRoundTrip(c);
  }

  /** V is the largest channel and `v * (1 - s)` the smallest. */
  lemma HsvExtremesOfColour(c: Rgb)
    ensures var x := ToHsv(c);
      && x.v == Unit(MaxChannel(c))
      && Mul(x.v, 1.0 - x.s) == Unit(MinChannel(c))
  {
    CylinderRanges(c);
    var x := ToHsv(c);
    UnitMax(c);
    UnitMin(c);
    ColorSys.HsvChroma(Unit(c.r), Unit(c.g), Unit(c.b));
    MulDistributes(x.v, 1.0, x.s);
    MulOne(x.v);
  }

  /** The colour made from (h, s, v) has largest channel `round(v * 255)`
      and smallest `round(v * (1 - s) * 255)`. */
  lemma FromHsvExtremes(h: real, s: real, v: real)
    requires 0.0 <= h && 0.0 <= s <= 1.0 && 0.0 <= v <= 1.0
    ensures MaxChannel(FromHsv(h, s, v)) == Scale(v)
    ensures MinChannel(FromHsv(h, s, v)) == Scale(Mul(v, 1.0 - s))
  {
    ColorSys.HsvToRgbBounds(h, s, v);
    var (r, g, b) := ColorSys.HsvToRgb(h, s, v);
    HsvToRgbAccepts(Hsv(h, s, v));
    ScaleMax(r, g, b);
    ScaleMin(r, g, b);
  }

  /** With saturation 0 every channel is `round(v * 255)`. */
  lemma FromHsvGrey(h: real, v: real)
    requires 0.0 <= h && 0.0 <= v <= 1.0
    ensures var m := Scale(v); FromHsv(h, 0.0, v) == Rgb(m, m, m)
  {
    HsvToRgbAccepts(Hsv(h, 0.0, v));
  }

  /** Factor 1 changes nothing, and a grey has no saturation to change. */
  lemma SaturateIdentity(c: Rgb, factor: real)
    ensures Saturate(c, 1.0) == c
    ensures c.r == c.g == c.b ==> Saturate(c, factor) == c
  {
    HsvOfColour(c);
    var x := ToHsv(c);
    MulOne(x.s);
    MulZero(factor);
    MulCommutes(x.s, factor);
  }

  /** Factor 0 turns a colour into the grey of its largest channel. */
  lemma SaturateToGrey(c: Rgb)
    ensures var m := MaxChannel(c); Saturate(c, 0.0) == Rgb(m, m, m)
  {
    HsvOfColour(c);
    HsvExtremesOfColour(c);
    var x := ToHsv(c);
    MulZero(x.s);
    FromHsvGrey(x.h, x.v);
    ScaleUnit(MaxChannel(c));
  }

  /** Saturation never moves the largest channel: V passes through. */
  lemma SaturateKeepsMax(c: Rgb, factor: real)
    ensures MaxChannel(Saturate(c, factor)) == MaxChannel(c)
  {
    HsvOfColour(c);
    var x := ToHsv(c);
    SaturationKeepsMax(x.h, x.s, Clamp(Mul(x.s, factor), 0.0, 1.0), x.v);
  }

  lemma SaturationKeepsMax(h: real, s: real, s': real, v: real)
    requires 0.0 <= h && 0.0 <= s <= 1.0 && 0.0 <= s' <= 1.0 && 0.0 <= v <= 1.0
    ensures MaxChannel(FromHsv(h, s', v)) == MaxChannel(FromHsv(h, s, v))
  {
    FromHsvExtremes(h, s, v);
    FromHsvExtremes(h, s', v);
  }

  /** Factor 1 changes nothing, factor 0 gives black, and a grey stays
      grey. */
  lemma BrightenShape(c: Rgb, factor: real)
    ensures Brighten(c, 1.0) == c
    ensures Brighten(c, 0.0) == Rgb(0, 0, 0)
    ensures c.r == c.g == c.b ==> var d := Brighten(c, factor); d.r == d.g == d.b
  {
    HsvOfColour(c);
    var x := ToHsv(c);
    MulOne(x.v);
    MulZero(x.v);
    ColorSys.HsvToRgbBounds(x.h, x.s, 0.0);
    FromHsvExtremes(x.h, x.s, 0.0);
    MulCommutes(0.0, 1.0 - x.s);
    MulZero(1.0 - x.s);
    RoundOfInteger(0);
    if c.r == c.g == c.b {
      FromHsvGrey(x.h, Clamp(Mul(x.v, factor), 0.0, 1.0));
    }
  }

  /** A factor of at least 1 never lowers the largest channel, a factor in
      [0, 1] never raises it. */
  lemma BrightenMonotone(c: Rgb, factor: real)
    ensures 1.0 <= factor ==> MaxChannel(c) <= MaxChannel(Brighten(c, factor))
    ensures 0.0 <= factor <= 1.0 ==> MaxChannel(Brighten(c, factor)) <= MaxChannel(c)
  {
    HsvOfColour(c);
    HsvExtremesOfColour(c);
    var x := ToHsv(c);
    var v := Clamp(Mul(x.v, factor), 0.0, 1.0);
    FromHsvExtremes(x.h, x.s, v);
    ScaleUnit(MaxChannel(c));
    ScaledValueMonotone(x.v, factor);
  }

  /** `round(clamp(v * factor, 0, 1) * 255)` against `round(v * 255)`. */
  lemma ScaledValueMonotone(v: real, factor: real)
    requires 0.0 <= v <= 1.0
    ensures 1.0 <= factor ==> Scale(v) <= Scale(Clamp(Mul(v, factor), 0.0, 1.0))
    ensures 0.0 <= factor <= 1.0 ==> Scale(Clamp(Mul(v, factor), 0.0, 1.0)) <= Scale(v)
  {
    var w := Clamp(Mul(v, factor), 0.0, 1.0);
    if 1.0 <= factor {
      MulGrows(factor, v);
      MulCommutes(factor, v);
      RoundMonotone(v * 255.0, w * 255.0);
    } else if 0.0 <= factor {
      MulFraction(v, factor);
      RoundMonotone(w * 255.0, v * 255.0);
    }
  }

  /** The same for a shift given in whole degrees, as the option is. */
  lemma WholeDegreesFullTurns(c: Rgb, turns: int)
    ensures ShiftHue(c, (360 * turns) as real) == c
  {
    assert (360 * turns) as real == 360.0 * turns as real;
    ShiftHueFullTurns(c, turns);
  }

  /** A whole number of turns leaves the colour unchanged. */
  lemma ShiftHueFullTurns(c: Rgb, turns: int)
    ensures ShiftHue(c, 360.0 * turns as real) == c
  {
    var x := ToHsv(c);
    var h' := FMod(x.h + 360.0 * turns as real / 360.0, 1.0);
    assert h' == x.h by {
      HsvOfColour(c);
      HueFullTurns(x.h, turns);
    }
    assert FromHsv(x.h, x.s, x.v) == c by {
      HsvOfColour(c);
    }
    assert ShiftHue(c, 360.0 * turns as real) == FromHsv(h', x.s, x.v);
  }

  lemma HueFullTurns(h: real, turns: int)
    requires 0.0 <= h < 1.0
    ensures FMod(h + 360.0 * turns as real / 360.0, 1.0) == h
  {
    assert 360.0 * turns as real / 360.0 == turns as real;
    FModIn(h + turns as real, 1.0, turns);
  }

  /** Turning the hue keeps the largest and the smallest channel: V and S
      pass through, and hsv_to_rgb spans `v * (1 - s)` to v whatever the
      hue. */
  lemma ShiftHueKeepsExtremes(c: Rgb, degrees: real)
    ensures MaxChannel(ShiftHue(c, degrees)) == MaxChannel(c)
    ensures MinChannel(ShiftHue(c, degrees)) == MinChannel(c)
  {
    var x := ToHsv(c);
    var h' := FMod(x.h + degrees / 360.0, 1.0);
    assert ShiftHue(c, degrees) == FromHsv(h', x.s, x.v);
    assert FromHsv(x.h, x.s, x.v) == c && 0.0 <= x.h && 0.0 <= h' && 0.0 <= x.s <= 1.0 && 0.0 <= x.v <= 1.0 by {
      HsvOfColour(c);
    }
    HueKeepsExtremes(x.h, h', x.s, x.v);
  }

  lemma HueKeepsExtremes(h: real, h': real, s: real, v: real)
    requires 0.0 <= h && 0.0 <= h' && 0.0 <= s <= 1.0 && 0.0 <= v <= 1.0
    ensures MaxChannel(FromHsv(h', s, v)) == MaxChannel(FromHsv(h, s, v))
    ensures MinChannel(FromHsv(h', s, v)) == MinChannel(FromHsv(h, s, v))
  {
    FromHsvExtremes(h, s, v);
    FromHsvExtremes(h', s, v);
  }

  lemma UnitMax(c: Rgb)
    ensures Max3(Unit(c.r), Unit(c.g), Unit(c.b)) == Unit(MaxChannel(c))
  {
  }

  lemma UnitMin(c: Rgb)
    ensures Min3(Unit(c.r), Unit(c.g), Unit(c.b)) == Unit(MinChannel(c))
  {
  }

  /** Rounding commutes with taking the larger ... */
  lemma ScaleMax2(x: real, y: real)
    ensures MaxInt(Scale(x), Scale(y)) == Scale(Max(x, y))
  {
    if x <= y {
      RoundMonotone(x * 255.0, y * 255.0);
    } else {
      RoundMonotone(y * 255.0, x * 255.0);
    }
  }

  /** ... and the smaller of two values ... */
  lemma ScaleMin2(x: real, y: real)
    ensures MinInt(Scale(x), Scale(y)) == Scale(Min(x, y))
  {
    if x <= y {
      RoundMonotone(x * 255.0, y * 255.0);
    } else {
      RoundMonotone(y * 255.0, x * 255.0);
    }
  }

  /** ... and so of three. */
  lemma ScaleMax(r: real, g: real, b: real)
    ensures MaxInt(MaxInt(Scale(r), Scale(g)), Scale(b)) == Scale(Max3(r, g, b))
  {
    ScaleMax2(r, g);
    ScaleMax2(Max(r, g), b);
  }

  lemma ScaleMin(r: real, g: real, b: real)
    ensures MinInt(MinInt(Scale(r), Scale(g)), Scale(b)) == Scale(Min3(r, g, b))
  {
    ScaleMin2(r, g);
    ScaleMin2(Min(r, g), b);
  }

  /** One channel of `_adjust_contrast`: stretched about the middle grey,
      clamped to [0, 255], then rounded. */
  function ContrastChannel(c: int, factor: real): (d: int)
    ensures 0 <= d <= 255
  {
    var n := Mul(c as real / 255.0 - 0.5, factor) + 0.5;
    var x := Clamp(n * 255.0, 0.0, 255.0);
    RoundWithin(x, 0, 255);
    RoundHalfEven(x)
  }

  /** `_adjust_contrast(r, g, b, factor)`. */
  function AdjustContrast(r: int, g: int, b: int, factor: real): (res: (int, int, int))
    ensures 0 <= res.0 <= 255 && 0 <= res.1 <= 255 && 0 <= res.2 <= 255
  {
    (ContrastChannel(r, factor), ContrastChannel(g, factor), ContrastChannel(b, factor))
  }

  /** Factor 1 keeps a channel, factor 0 sends every channel to the middle
      grey 128 (127.5 rounds to even), and a non-negative factor keeps the
      channels' order. */
  lemma ContrastChannelShape(c: int, d: int, factor: real)
    ensures 0 <= c <= 255 ==> ContrastChannel(c, 1.0) == c
    ensures ContrastChannel(c, 0.0) == 128
    ensures 0.0 <= factor && c <= d ==> ContrastChannel(c, factor) <= ContrastChannel(d, factor)
  {
    MulOne(c as real / 255.0 - 0.5);
    RoundOfInteger(c);
    MulZero(c as real / 255.0 - 0.5);
    assert Floor(127.5) == 127;
    if 0.0 <= factor && c <= d {
      MulCommutes(c as real / 255.0 - 0.5, factor);
      MulCommutes(d as real / 255.0 - 0.5, factor);
      MulMonotone(factor, c as real / 255.0 - 0.5, d as real / 255.0 - 0.5);
      var x := Clamp((Mul(c as real / 255.0 - 0.5, factor) + 0.5) * 255.0, 0.0, 255.0);
      var y := Clamp((Mul(d as real / 255.0 - 0.5, factor) + 0.5) * 255.0, 0.0, 255.0);
      RoundMonotone(x, y);
    }
  }

  /** `max(-100, min(100, value)) / 100`. */
  function Warmth(value: int): (t: real)
    ensures -1.0 <= t <= 1.0
  {
    MaxInt(-100, MinInt(100, value)) as real / 100.0
  }

  /** `round(max(0, min(255, x)))`. */
  function ClampRound(x: real): (d: int)
    ensures 0 <= d <= 255
  {
    RoundWithin(Clamp(x, 0.0, 255.0), 0, 255);
    RoundHalfEven(Clamp(x, 0.0, 255.0))
  }

  /** `_adjust_temperature(r, g, b, value)`: a warm value pulls red half of
      the way the warmth allows toward 255 and takes up to 30% off blue; a
      cool value does the reverse. Green is never touched. */
  function AdjustTemperature(r: int, g: int, b: int, value: int): (res: (int, int, int))
    ensures res.1 == g
    ensures 0 <= res.0 <= 255 && 0 <= res.2 <= 255
  {
    var t := Warmth(value);
    if t > 0.0 then
      (ClampRound(r as real + Mul((255 - r) as real, t) * 0.5), g,
       ClampRound(b as real - Mul(b as real, t) * 0.3))
    else
      var u := Abs(t);
      (ClampRound(r as real - Mul(r as real, u) * 0.3), g,
       ClampRound(b as real + Mul((255 - b) as real, u) * 0.5))
  }

  /** Value 0 changes nothing, and values beyond +-100 act as +-100. */
  lemma TemperatureNeutral(r: int, g: int, b: int, value: int)
    requires 0 <= r <= 255 && 0 <= b <= 255
    ensures AdjustTemperature(r, g, b, 0) == (r, g, b)
    ensures value >= 100 ==> AdjustTemperature(r, g, b, value) == AdjustTemperature(r, g, b, 100)
    ensures value <= -100 ==> AdjustTemperature(r, g, b, value) == AdjustTemperature(r, g, b, -100)
  {
    MulZero((255 - b) as real);
    MulZero(r as real);
    RoundOfInteger(r);
    RoundOfInteger(b);
  }

  /** A warm value never lowers red nor raises blue, a cool value never
      raises red nor lowers blue. */
  lemma TemperatureDirection(r: int, g: int, b: int, value: int)
    requires 0 <= r <= 255 && 0 <= b <= 255
    ensures value > 0 ==> var res := AdjustTemperature(r, g, b, value); r <= res.0 && res.2 <= b
    ensures value < 0 ==> var res := AdjustTemperature(r, g, b, value); res.0 <= r && b <= res.2
  {
    var t := Warmth(value);
    if value > 0 {
      Raised(r, t);
      Lowered(b, t);
    } else if value < 0 {
      Lowered(r, Abs(t));
      Raised(b, Abs(t));
    }
  }

  /** Moving a channel up by half its headroom times t does not lower it ... */
  lemma Raised(c: int, t: real)
    requires 0 <= c <= 255 && 0.0 <= t <= 1.0
    ensures c <= ClampRound(c as real + Mul((255 - c) as real, t) * 0.5)
  {
    MulFraction((255 - c) as real, t);
    RoundOfInteger(c);
    RoundMonotone(c as real, Clamp(c as real + Mul((255 - c) as real, t) * 0.5, 0.0, 255.0));
  }

  /** ... and taking 30% of it times t off does not raise it. */
  lemma Lowered(c: int, t: real)
    requires 0 <= c <= 255 && 0.0 <= t <= 1.0
    ensures ClampRound(c as real - Mul(c as real, t) * 0.3) <= c
  {
    MulFraction(c as real, t);
    RoundOfInteger(c);
    RoundMonotone(Clamp(c as real - Mul(c as real, t) * 0.3, 0.0, 255.0), c as real);
  }

  /** `_transform_color(rgb, hue, saturation, brightness, contrast, temp,
      opacity)`: hue, saturation and brightness in HSV, then contrast and
      temperature on the channels, each step skipped when its argument is
      None; the alpha is the opacity (1.0 when None) clamped to [0, 1], so
      the RGBA constructor accepts the result. */
  function TransformColor(c: Rgb, hue: Option<int>, saturation: Option<real>, brightness: Option<real>,
                          contrast: Option<real>, temp: Option<int>, opacity: Option<real>): (res: Rgba)
    ensures 0.0 <= res.a <= 1.0
    ensures opacity.None? ==> res.a == 1.0
    ensures opacity.Some? && 0.0 <= opacity.value <= 1.0 ==> res.a == opacity.value
  {
    Rgba(TransformChannels(c, hue, saturation, brightness, contrast, temp),
         Clamp(if opacity.Some? then opacity.value else 1.0, 0.0, 1.0))
  }

  /** The channel steps of `_transform_color`, in order. */
  function TransformChannels(c: Rgb, hue: Option<int>, saturation: Option<real>, brightness: Option<real>,
                             contrast: Option<real>, temp: Option<int>): Rgb
  {
    var c1 := if hue.Some? then ShiftHue(c, hue.value as real) else c;
    var c2 := if saturation.Some? then Saturate(c1, saturation.value) else c1;
    var c3 := if brightness.Some? then Brighten(c2, brightness.value) else c2;
    var (r4, g4, b4) := if contrast.Some? then AdjustContrast(c3.r, c3.g, c3.b, contrast.value) else (c3.r, c3.g, c3.b);
    var (r5, g5, b5) := if temp.Some? then AdjustTemperature(r4, g4, b4, temp.value) else (r4, g4, b4);
    Rgb(r5, g5, b5)
  }

  /** With every step None the channels pass through; so they do with
      only a hue shift of whole turns, with saturation and brightness
      factors of 1, and with contrast 1 and temperature 0. */
  lemma TransformIdentities(c: Rgb, turns: int, opacity: Option<real>)
    ensures TransformColor(c, None, None, None, None, None, opacity).rgb == c
    ensures TransformColor(c, Some(360 * turns), None, None, None, None, opacity).rgb == c
    ensures TransformColor(c, None, Some(1.0), Some(1.0), None, None, opacity).rgb == c
    ensures TransformColor(c, None, None, None, Some(1.0), Some(0), opacity).rgb == c
  {
    var h := (360 * turns) as real;
    WholeDegreesFullTurns(c, turns);
    assert TransformChannels(c, Some(360 * turns), None, None, None, None) == ShiftHue(c, h);
    assert TransformColor(c, Some(360 * turns), None, None, None, None, opacity).rgb
      == TransformChannels(c, Some(360 * turns), None, None, None, None);
    SaturateIdentity(c, 1.0);
    BrightenShape(c, 1.0);
    ContrastChannelShape(c.r, c.r, 1.0);
    ContrastChannelShape(c.g, c.g, 1.0);
    ContrastChannelShape(c.b, c.b, 1.0);
    TemperatureNeutral(c.r, c.g, c.b, 0);
  }
}
