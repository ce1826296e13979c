/** The image-aware ANSI theme of `generate_ansi`: a dyed 4bit scheme whose
    twelve chromatic slots are replaced by image colours of the right hue
    where there are any, saturation-boosted, and brightened in small steps
    until they stand off the primary background. */
module AssignAnsi {
  import opened Wrappers
  import opened Numeric
  import opened Colors
  import Gamma
  import Select
  import Dict
  import Transformation
  import AssignLogic
  import ColorAssign
  import Ansi4Bit

  const MinAnsiContrast: real := 2.0
  /** The safety bound of the brightening loop. */
  const MaxIterations: nat := 15
  const BrightenStep: real := 1.05
  const ReplaceHueTolerance: real := 45.0
  /** The luma window is the accent's luma plus or minus this share of it. */
  const LumaToleranceShare: real := 0.66
  /** Bright slots taken from the image get at least this HSV value. */
  const BrightValueFloor: real := 0.75
  const DyeAlpha: real := 0.7

  // ---- Hue search -----------------------------------------------------

  /** The circular distance in degrees between an entry's HSL hue and the
      target hue reduced into [0, 360). */
  function HueGap(c: ColorData, targetHue: real): (d: real)
    ensures 0.0 <= d <= 180.0
  {
    CylinderRanges(c.rgb);
    AssignLogic.HueDistanceShape(ToHsl(c.rgb).h * 360.0, FMod(targetHue, 360.0));
    AssignLogic.HueDistance(ToHsl(c.rgb).h * 360.0, FMod(targetHue, 360.0))
  }

  /** The luma filter, applied only when both the target luma and its
      tolerance are given. */
  predicate InLumaWindow(pc: Gamma.PowerCurves, c: ColorData, targetLuma: Option<real>, lumaTolerance: Option<real>)
  {
    targetLuma.Some? && lumaTolerance.Some? ==>
      targetLuma.value - lumaTolerance.value <= Luma(pc, c.rgb) <= targetLuma.value + lumaTolerance.value
  }

  /** An entry becomes a candidate: inside the luma window and within the
      hue tolerance. */
  predicate Passes(pc: Gamma.PowerCurves, c: ColorData, targetHue: real, hueTolerance: real,
                   targetLuma: Option<real>, lumaTolerance: Option<real>)
  {
    InLumaWindow(pc, c, targetLuma, lumaTolerance) && HueGap(c, targetHue) <= hueTolerance
  }

  /** `find_color_in_hue_range`: among the candidates, the one closest in
      hue, the first of several equally close; None when there is no
      candidate. */
  function FindColorInHueRange(pc: Gamma.PowerCurves, colors: seq<ColorData>, targetHue: real, hueTolerance: real,
                               targetLuma: Option<real>, lumaTolerance: Option<real>): Option<ColorData>
  {
    var found := Select.ArgMinWhere(colors,
      (c: ColorData) => Passes(pc, c, targetHue, hueTolerance, targetLuma, lumaTolerance),
      (c: ColorData) => HueGap(c, targetHue));
    if found.None? then None else Some(colors[found.value])
  }

  /** None exactly when no entry passes both filters. */
  lemma FindColorNone(pc: Gamma.PowerCurves, colors: seq<ColorData>, targetHue: real, hueTolerance: real,
                      targetLuma: Option<real>, lumaTolerance: Option<real>)
    ensures FindColorInHueRange(pc, colors, targetHue, hueTolerance, targetLuma, lumaTolerance).None?
      <==> forall j :: 0 <= j < |colors| ==> !Passes(pc, colors[j], targetHue, hueTolerance, targetLuma, lumaTolerance)
  {
    var p := (c: ColorData) => Passes(pc, c, targetHue, hueTolerance, targetLuma, lumaTolerance);
    var found := Select.ArgMinWhere(colors, p, (c: ColorData) => HueGap(c, targetHue));
    assert found.None? <==> forall j :: 0 <= j < |colors| ==> !p(colors[j]);
  }

  /** A found entry sits at some position i, passes both filters, no
      candidate is closer in hue, and every candidate before i is strictly
      farther. */
  lemma FindColorBest(pc: Gamma.PowerCurves, colors: seq<ColorData>, targetHue: real, hueTolerance: real,
                      targetLuma: Option<real>, lumaTolerance: Option<real>)
    requires FindColorInHueRange(pc, colors, targetHue, hueTolerance, targetLuma, lumaTolerance).Some?
    ensures var m := FindColorInHueRange(pc, colors, targetHue, hueTolerance, targetLuma, lumaTolerance).value;
      exists i :: && 0 <= i < |colors| && colors[i] == m
                  && Passes(pc, m, targetHue, hueTolerance, targetLuma, lumaTolerance)
                  && (forall j :: 0 <= j < |colors| && Passes(pc, colors[j], targetHue, hueTolerance, targetLuma, lumaTolerance)
                        ==> HueGap(m, targetHue) <= HueGap(colors[j], targetHue))
                  && (forall j :: 0 <= j < i && Passes(pc, colors[j], targetHue, hueTolerance, targetLuma, lumaTolerance)
                        ==> HueGap(m, targetHue) < HueGap(colors[j], targetHue))
  {
    var p := (c: ColorData) => Passes(pc, c, targetHue, hueTolerance, targetLuma, lumaTolerance);
    var key := (c: ColorData) => HueGap(c, targetHue);
    var i := Select.ArgMinWhere(colors, p, key).value;
    assert colors[i] == FindColorInHueRange(pc, colors, targetHue, hueTolerance, targetLuma, lumaTolerance).value;
  }

  /** The target hue only matters modulo 360 and the distance is measured
      the short way round: a target of -15 is a target of 345. */
  lemma HueGapModular(c: ColorData, targetHue: real, turns: int)
    ensures HueGap(c, targetHue + 360.0 * turns as real) == HueGap(c, targetHue)
  {
    assert FMod(targetHue + 360.0 * turns as real, 360.0) == FMod(targetHue, 360.0) by {
      DegreesPeriodic(targetHue, turns);
    }
  }

  /** `(x + 360 n) % 360 == x % 360`. */
  lemma DegreesPeriodic(x: real, turns: int)
    ensures FMod(x + 360.0 * turns as real, 360.0) == FMod(x, 360.0)
  {
    var k := Floor(x / 360.0);
    LowerScaled(x, 360.0);
    UpperScaled(x, 360.0);
    FModIn(x, 360.0, k);
    FModIn(x + 360.0 * turns as real, 360.0, k + turns);
  }

  // ---- Slot replacement -----------------------------------------------

  /** The keys of `ansi_color_map` and `ansi_chroma_keys`, by index. */
  const ChromaSlots: seq<nat> := [1, 2, 3, 4, 5, 6, 9, 10, 11, 12, 13, 14]

  /** The target hue of a chromatic slot: the 4bit wheel shifted by -15
      degrees, red 0, green 120, yellow 60, blue 240, magenta 300, cyan 180. */
  function TargetHue(slot: nat): real
  {
    var k := slot % 8;
    -15.0 + (if k == 1 then 0.0 else if k == 2 then 120.0 else if k == 3 then 60.0
             else if k == 4 then 240.0 else if k == 5 then 300.0 else 180.0)
  }

  /** Each chromatic slot aims at the wheel angle of its 4bit colour, less
      15 degrees, and a bright slot at the same hue as its normal one. */
  lemma TargetHueWheel(i: nat)
    requires i in ChromaSlots
    ensures TargetHue(i) == Ansi4Bit.WheelAngle(Ansi4Bit.AnsiOrder[i]) - 15.0
    ensures i < 8 ==> TargetHue(i + 8) == TargetHue(i)
  {
  }

  /** The bright-slot adjustment: an HSV value below 0.75 is raised to 0.75,
      keeping hue and saturation; otherwise the colour is kept as it is. */
  function Raise(c: Rgb): Rgb
  {
    CylinderRanges(c);
    var x := ToHsv(c);
    var target := Max(x.v, BrightValueFloor);
    if target != x.v then Transformation.FromHsv(x.h, x.s, target) else c
  }

  /** A colour whose largest channel is at least 192 is kept; one whose
      largest channel is at most 191 comes out with largest channel
      `round(0.75 * 255)` = 191. */
  lemma RaiseShape(c: Rgb)
    ensures MaxChannel(c) >= 192 ==> Raise(c) == c
    ensures MaxChannel(c) <= 191 ==> MaxChannel(Raise(c)) == 191
  {
    Transformation.HsvOfColour(c);
    Transformation.HsvExtremesOfColour(c);
    var x := ToHsv(c);
    assert x.v == Unit(MaxChannel(c));
    if MaxChannel(c) <= 191 {
      Transformation.FromHsvExtremes(x.h, x.s, BrightValueFloor);
      assert Scale(BrightValueFloor) == 191 by {
        assert BrightValueFloor * 255.0 == 191.25;
      }
    }
  }

  /** The colour a chromatic slot gets from the image, if any: the closest
      entry in hue within 45 degrees whose luma is within 66 percent of the
      accent's, raised for a bright slot. */
  function Replacement(pc: Gamma.PowerCurves, colors: seq<ColorData>, accentLuma: real, slot: nat): Option<Rgb>
  {
    match FindColorInHueRange(pc, colors, TargetHue(slot), ReplaceHueTolerance,
                              Some(accentLuma), Some(accentLuma * LumaToleranceShare))
    case None => None
    case Some(m) => Some(if slot >= 8 then Raise(m.rgb) else m.rgb)
  }

  /** Rewrites the listed slots in order, each from its index and its
      current value; a slot outside the theme is passed over. */
  function Rewrite(theme: seq<Rgb>, slots: seq<nat>, f: (nat, Rgb) -> Rgb): (r: seq<Rgb>)
    ensures |r| == |theme|
  {
    if |slots| == 0 then theme
    else
      var t := Rewrite(theme, slots[..|slots| - 1], f);
      var i := slots[|slots| - 1];
      if i < |t| then t[i := f(i, t[i])] else t
  }

  /** With distinct slots inside the theme, each listed slot is rewritten
      once from its original value and every other slot is kept. */
  lemma {:induction false} RewritePointwise(theme: seq<Rgb>, slots: seq<nat>, f: (nat, Rgb) -> Rgb)
    requires forall a, b :: 0 <= a < b < |slots| ==> slots[a] != slots[b]
    ensures forall i :: 0 <= i < |theme| ==>
      Rewrite(theme, slots, f)[i] == if i in slots then f(i, theme[i]) else theme[i]
  {
    if |slots| > 0 {
      var init := slots[..|slots| - 1];
      var last := slots[|slots| - 1];
      RewritePointwise(theme, init, f);
      assert slots == init + [last];
      assert last !in init by {
        forall a | 0 <= a < |init| ensures init[a] != last {
          assert init[a] == slots[a];
        }
      }
    }
  }

  /** One slot of the replacement loop. */
  function ReplaceSlot(pc: Gamma.PowerCurves, colors: seq<ColorData>, accentLuma: real, slot: nat, c: Rgb): Rgb
  {
    match Replacement(pc, colors, accentLuma, slot)
    case None => c
    case Some(d) => d
  }

  /** `saturate(color, 1.5)` on ansi-1/9/2/10/3/11, `saturate(color, 1.3)`
      on every other key. */
  function Boost(slot: nat, c: Rgb): Rgb
  {
    Transformation.Saturate(c, if slot in {1, 9, 2, 10, 3, 11} then 1.5 else 1.3)
  }

  /** The boost never moves a colour's largest channel (HSV value). */
  lemma BoostKeepsValue(slot: nat, c: Rgb)
    ensures MaxChannel(Boost(slot, c)) == MaxChannel(c)
  {
    Transformation.SaturateKeepsMax(c, if slot in {1, 9, 2, 10, 3, 11} then 1.5 else 1.3);
  }

  // ---- The contrast loop ----------------------------------------------

  /** One step of the loop, `brighten(color, 1.05)`. */
  function Step(c: Rgb): Rgb
  {
    Transformation.Brighten(c, BrightenStep)
  }

  /** A step never lowers the largest channel. */
  lemma StepRaises(c: Rgb)
    ensures MaxChannel(c) <= MaxChannel(Step(c))
  {
    Transformation.BrightenMonotone(c, BrightenStep);
  }

  /** k applications of f to x. */
  function Iterate<T>(f: T -> T, x: T, k: nat): T
    decreases k
  {
    if k == 0 then x else Iterate(f, f(x), k - 1)
  }

  /** One more application is f of the previous result. */
  lemma {:induction false} IterateNext<T>(f: T -> T, x: T, k: nat)
    ensures Iterate(f, x, k + 1) == f(Iterate(f, x, k))
    decreases k
  {
    if k > 0 {
      IterateNext(f, f(x), k - 1);
    }
  }

  /** Iterating a map that never lowers the largest channel never lowers
      it either. */
  lemma {:induction false} IterateRaises(f: Rgb -> Rgb, c: Rgb, k: nat)
    requires forall d :: MaxChannel(d) <= MaxChannel(f(d))
    ensures MaxChannel(c) <= MaxChannel(Iterate(f, c, k))
    decreases k
  {
    if k > 0 {
      IterateRaises(f, f(c), k - 1);
    }
  }

  /** k steps of the loop never lower the largest channel. */
  lemma StepsRaise(c: Rgb, k: nat)
    ensures MaxChannel(c) <= MaxChannel(Iterate(Step, c, k))
  {
    forall d ensures MaxChannel(d) <= MaxChannel(Step(d)) {
      StepRaises(d);
    }
    IterateRaises(Step, c, k);
  }

  /** The loop condition's complement: the colour stands off the
      background by a ratio of at least 2. */
  predicate Enough(pc: Gamma.PowerCurves, c: Rgb, bg: Rgb)
    requires Gamma.Faithful(pc)
  {
    AssignLogic.Contrast(pc, c, bg) >= MinAnsiContrast
  }

  /** The loop `while not enough(x) and steps < budget: x = f(x)`: the
      value it stops at and the number of steps taken. The steps are the
      fewest after which `enough` holds, unless the budget runs out
      first. */
  function Lift<T>(f: T -> T, enough: T -> bool, x: T, budget: nat): (res: (T, nat))
    ensures res.1 <= budget
    ensures res.0 == Iterate(f, x, res.1)
    ensures forall k :: 0 <= k < res.1 ==> !enough(Iterate(f, x, k))
    ensures res.1 < budget ==> enough(res.0)
    decreases budget
  {
    if budget == 0 || enough(x) then (x, 0)
    else
      var (y, k) := Lift(f, enough, f(x), budget - 1);
      (y, k + 1)
  }

  /** The stopping point is unique: any step count within the budget
      before which `enough` never held, and after which it holds unless
      the budget is spent, is the one `Lift` takes. */
  lemma LiftUnique<T>(f: T -> T, enough: T -> bool, x: T, budget: nat, k: nat)
    requires k <= budget
    requires forall j :: 0 <= j < k ==> !enough(Iterate(f, x, j))
    requires k < budget ==> enough(Iterate(f, x, k))
    ensures Lift(f, enough, x, budget) == (Iterate(f, x, k), k)
  {
    var (y, m) := Lift(f, enough, x, budget);
    assert m < k ==> !enough(Iterate(f, x, m));
    assert k < m ==> !enough(Iterate(f, x, k));
  }

  /** The contrast loop of one colour against the background: at most 15
      brightening steps, stopping as soon as the contrast is enough; the
      loop statement itself is `RunLoop`. */
  function Brightened(pc: Gamma.PowerCurves, c: Rgb, bg: Rgb): (res: (Rgb, nat))
    requires Gamma.Faithful(pc)
  {
    Lift(Step, (d: Rgb) => Enough(pc, d, bg), c, MaxIterations)
  }

  /** The loop itself, step by step: at most `budget` steps, stopping as
      soon as `enough` holds, at the same value and step count as
      `Lift`. */
  method RunLoop<T>(f: T -> T, enough: T -> bool, x: T, budget: nat) returns (y: T, steps: nat)
    ensures steps <= budget
    ensures y == Iterate(f, x, steps)
    ensures forall k :: 0 <= k < steps ==> !enough(Iterate(f, x, k))
    ensures steps < budget ==> enough(y)
    ensures (y, steps) == Lift(f, enough, x, budget)
  {
    y, steps := x, 0;
    while !enough(y) && steps < budget
      invariant steps <= budget
      invariant y == Iterate(f, x, steps)
      invariant forall k :: 0 <= k < steps ==> !enough(Iterate(f, x, k))
      decreases budget - steps
    {
      IterateNext(f, x, steps);
      y, steps := f(y), steps + 1;
    }
    LiftUnique(f, enough, x, budget, steps);
  }

  /** The contrast loop of one colour stops after at most 15 steps, and
      before that only once the contrast is enough; it never leaves the
      colour darker than it started. */
  lemma BrightenedShape(pc: Gamma.PowerCurves, c: Rgb, bg: Rgb)
    requires Gamma.Faithful(pc)
    ensures var (d, steps) := Brightened(pc, c, bg);
      && steps <= MaxIterations
      && d == Iterate(Step, c, steps)
      && (forall k :: 0 <= k < steps ==> !Enough(pc, Iterate(Step, c, k), bg))
      && (steps < MaxIterations ==> Enough(pc, d, bg))
      && MaxChannel(c) <= MaxChannel(d)
  {
    var (d, steps) := Brightened(pc, c, bg);
    StepsRaise(c, steps);
  }

  /** One slot of the contrast loop: the lifted colour is written back only
      when its luma differs from the starting colour's. */
  function FixSlot(pc: Gamma.PowerCurves, bg: Rgb, c: Rgb): Rgb
    requires Gamma.Faithful(pc)
  {
    var d := Brightened(pc, c, bg).0;
    if Luma(pc, d) != Luma(pc, c) then d else c
  }

  /** The slot keeps its colour or takes a brightened one, never darker,
      and a colour already standing off the background is kept. */
  lemma FixSlotShape(pc: Gamma.PowerCurves, bg: Rgb, c: Rgb)
    requires Gamma.Faithful(pc)
    ensures Enough(pc, c, bg) ==> FixSlot(pc, bg, c) == c
    ensures exists k :: 0 <= k <= MaxIterations && FixSlot(pc, bg, c) == Iterate(Step, c, k)
    ensures MaxChannel(c) <= MaxChannel(FixSlot(pc, bg, c))
  {
    var (d, k) := Brightened(pc, c, bg);
    StepsRaise(c, k);
    if Luma(pc, d) == Luma(pc, c) {
      assert FixSlot(pc, bg, c) == Iterate(Step, c, 0);
    }
  }

  // ---- generate_ansi --------------------------------------------------

  /** The HSL lightness of the lightest roles colour (the first one of
      several equally light). */
  function BrightestLightness(values: seq<Rgb>): (l: real)
    requires |values| > 0
    ensures forall i :: 0 <= i < |values| ==> ToHsl(values[i]).l <= l
    ensures exists i :: 0 <= i < |values| && ToHsl(values[i]).l == l
  {
    var i := Select.ArgMax(values, (v: Rgb) => ToHsl(v).l);
    ToHsl(values[i]).l
  }

  /** The scheme arguments: the accent's lightness for the normal colours,
      the lightest roles colour's for the bright ones, and the accent's
      saturation when above 0.3, else 0.4. */
  function AnsiScheme(acc: Hsl, brightLightness: real): (p: Ansi4Bit.Scheme)
  {
    Ansi4Bit.DefaultScheme.(
      saturation := if acc.s > 0.3 then acc.s else 0.4,
      normalLightness := acc.l,
      brightLightness := brightLightness)
  }

  /** The scheme's base hue and greys are the defaults; only the three
      accent-driven parameters change, and they stay in [0, 1]. */
  lemma AnsiSchemeShape(acc: Hsl, brightLightness: real)
    requires 0.0 <= acc.s <= 1.0 && 0.0 <= acc.l <= 1.0
    ensures var p := AnsiScheme(acc, brightLightness);
      && p.hue == -15.0
      && 0.3 < p.saturation <= 1.0
      && p.normalLightness == acc.l
      && p.blackLightness == 0.0 && p.whiteLightness == 0.875
  {
  }

  /** The dye with hue given in degrees, the accent's saturation and
      lightness, alpha 0.7, over the chromatic slots. */
  function AnsiDye(acc: Hsl, hueDegrees: real): Ansi4Bit.Dye
  {
    Ansi4Bit.Dye(hueDegrees, acc.s, acc.l, DyeAlpha, "color")
  }

  /** The dye as written: `dye_h=accent.hsl.h`, a fraction of a turn,
      which the generator divides by 360 once more. */
  function DyeAsWritten(acc: Hsl): (d: Ansi4Bit.Dye)
  {
    AnsiDye(acc, acc.h)
  }

  /** The dye as intended: the accent's hue in degrees. */
  function DyeCorrected(acc: Hsl): (d: Ansi4Bit.Dye)
  {
    AnsiDye(acc, acc.h * 360.0)
  }

  /** The HSL colour the generator builds from a dye's parameters. */
  function DyeHsl(d: Ansi4Bit.Dye): Hsl
  {
    Hsl(d.h / 360.0, d.s, d.l)
  }

  /** Corrected, the dye is the accent's own HSL colour. */
  lemma CorrectedDyeIsAccent(acc: Hsl)
    ensures DyeHsl(DyeCorrected(acc)) == acc
  {
  }

  /** As written, a pure cyan accent (hue 0.5) yields a dye one 720th of a
      turn from red: the dye colour is (255, 2, 0) instead of the accent's
      (0, 255, 255). */
  lemma AsWrittenDyeIsNotAccent()
    ensures ToHsl(Rgb(0, 255, 255)) == Hsl(0.5, 1.0, 0.5)
    ensures HslToRgb(DyeHsl(DyeAsWritten(Hsl(0.5, 1.0, 0.5)))) == Ok(Rgb(255, 2, 0))
    ensures HslToRgb(DyeHsl(DyeCorrected(Hsl(0.5, 1.0, 0.5)))) == Ok(Rgb(0, 255, 255))
  {
    CyanHsl();
    assert DyeHsl(DyeAsWritten(Hsl(0.5, 1.0, 0.5))) == Hsl(0.5 / 360.0, 1.0, 0.5);
    NearRedHls();
    assert DyeHsl(DyeCorrected(Hsl(0.5, 1.0, 0.5))) == Hsl(0.5, 1.0, 0.5);
    CyanHls();
  }

  /** `RGB(0, 255, 255).hsl` is hue 0.5, saturation 1, lightness 0.5. */
  lemma CyanHsl()
    ensures ToHsl(Rgb(0, 255, 255)) == Hsl(0.5, 1.0, 0.5)
  {
    assert Unit(0) == 0.0 && Unit(255) == 1.0;
    assert ColorSys.RawHue(0.0, 1.0, 1.0) == 3.0;
    assert ColorSys.Hue(0.0, 1.0, 1.0) == 0.5;
  }

  /** `HSL(0.5 / 360, 1, 0.5).rgb` is (255, 2, 0). */
  lemma NearRedHls()
    ensures HslToRgb(Hsl(0.5 / 360.0, 1.0, 0.5)) == Ok(Rgb(255, 2, 0))
  {
    var h := 0.5 / 360.0;
    assert ColorSys.HlsBounds(0.5, 1.0) == (0.0, 1.0);
    assert ColorSys.HueChannel(0.0, 1.0, h + ColorSys.OneThird) == 1.0;
    assert ColorSys.HueChannel(0.0, 1.0, h) == 1.0 / 120.0 by {
      assert FMod(h, 1.0) == h;
      assert Lerp(0.0, 1.0, h * 6.0) == 1.0 / 120.0;
    }
    assert ColorSys.HueChannel(0.0, 1.0, h - ColorSys.OneThird) == 0.0 by {
      FModIn(h - ColorSys.OneThird, 1.0, -1);
    }
    assert Scale(1.0) == 255 && Scale(1.0 / 120.0) == 2 && Scale(0.0) == 0;
  }

  /** `HSL(0.5, 1, 0.5).rgb` is (0, 255, 255) again. */
  lemma CyanHls()
    ensures HslToRgb(Hsl(0.5, 1.0, 0.5)) == Ok(Rgb(0, 255, 255))
  {
    CyanTriple();
    ScaleEnds();
  }

  /** colorsys `hls_to_rgb(0.5, 0.5, 1.0)` is (0, 1, 1). */
  lemma CyanTriple()
    ensures ColorSys.HlsToRgb(0.5, 0.5, 1.0) == (0.0, 1.0, 1.0)
  {
    FullBounds();
    CyanChannels();
  }

  /** Lightness 0.5 at full saturation spans 0 to 1. */
  lemma FullBounds()
    ensures ColorSys.HlsBounds(0.5, 1.0) == (0.0, 1.0)
  {
  }

  lemma ScaleEnds()
    ensures Scale(0.0) == 0 && Scale(1.0) == 255
  {
  }

  /** The three `_v` calls for hue 0.5 between 0 and 1. */
  lemma CyanChannels()
    ensures ColorSys.HueChannel(0.0, 1.0, 0.5 + ColorSys.OneThird) == 0.0
    ensures ColorSys.HueChannel(0.0, 1.0, 0.5) == 1.0
    ensures ColorSys.HueChannel(0.0, 1.0, 0.5 - ColorSys.OneThird) == 1.0
  {
    assert Lerp(0.0, 1.0, (ColorSys.TwoThird - 0.5) * 6.0) == 1.0;
  }

  /** The image and contrast passes over the 4bit theme: replacement of
      the chromatic slots, the saturation boost on all sixteen, then the
      contrast loop on the chromatic slots. */
  function Finish(pc: Gamma.PowerCurves, colors: seq<ColorData>, accentLuma: real, base: seq<Rgb>, bg: Rgb): seq<Rgb>
    requires Gamma.Faithful(pc)
  {
    var replaced := Rewrite(base, ChromaSlots, (i: nat, c: Rgb) => ReplaceSlot(pc, colors, accentLuma, i, c));
    var boosted := seq(|replaced|, i requires 0 <= i < |replaced| => Boost(i, replaced[i]));
    Rewrite(boosted, ChromaSlots, (i: nat, c: Rgb) => FixSlot(pc, bg, c))
  }

  /** `generate_ansi` with the vibrant colour taken as the processed RGB of
      the one-argument `_select_vibrant_color`, and the dye hue in degrees.
      The result is the `ansi-<i>` dict as a sequence indexed by i. */
  function GenerateAnsi(pc: Gamma.PowerCurves, colors: seq<ColorData>, roles: ColorAssign.ThemeDict): Result<seq<Rgb>>
    requires Gamma.Faithful(pc)
  {
    if |colors| == 0 then Err(ValueError("max() arg is an empty sequence"))
    else
      var accent := AssignLogic.SelectVibrant(pc, colors).1;
      var values := Dict.Values(roles);
      if |values| == 0 then Err(ValueError("max() arg is an empty sequence"))
      else
        var acc := ToHsl(accent);
        var base :- Ansi4Bit.GenerateColorScheme(AnsiScheme(acc, BrightestLightness(values)), DyeCorrected(acc));
        var bg :- ColorAssign.Need(roles, ColorAssign.Role("bg-primary"));
        Ok(Finish(pc, colors, Luma(pc, accent), base, bg))
  }

  /** The twelve chromatic slots are listed once each. */
  lemma ChromaSlotsDistinct()
    ensures forall a, b :: 0 <= a < b < |ChromaSlots| ==> ChromaSlots[a] != ChromaSlots[b]
  {
    assert forall a :: 0 <= a < |ChromaSlots| ==> ChromaSlots[a] == if a < 6 then a + 1 else a + 3;
  }

  /** Slot by slot: a chromatic slot is replaced from the image, boosted
      and then lifted for contrast; ansi-0, 7, 8 and 15 are only boosted. */
  lemma FinishPointwise(pc: Gamma.PowerCurves, colors: seq<ColorData>, accentLuma: real, base: seq<Rgb>, bg: Rgb)
    requires Gamma.Faithful(pc)
    ensures |Finish(pc, colors, accentLuma, base, bg)| == |base|
    ensures forall i :: 0 <= i < |base| ==>
      Finish(pc, colors, accentLuma, base, bg)[i]
        == if i in ChromaSlots then FixSlot(pc, bg, Boost(i, ReplaceSlot(pc, colors, accentLuma, i, base[i])))
           else Boost(i, base[i])
  {
    var rf := (i: nat, c: Rgb) => ReplaceSlot(pc, colors, accentLuma, i, c);
    var ff := (i: nat, c: Rgb) => FixSlot(pc, bg, c);
    ChromaSlotsDistinct();
    RewritePointwise(base, ChromaSlots, rf);
    var replaced := Rewrite(base, ChromaSlots, rf);
    var boosted := seq(|replaced|, i requires 0 <= i < |replaced| => Boost(i, replaced[i]));
    RewritePointwise(boosted, ChromaSlots, ff);
  }

  /** `generate_ansi` fails exactly when there is no colour data or no
      assigned colour (`max` of an empty sequence) or no bg-primary role
      (KeyError); the 4bit scheme itself is always produced. */
  lemma GenerateAnsiOutcome(pc: Gamma.PowerCurves, colors: seq<ColorData>, roles: ColorAssign.ThemeDict)
    requires Gamma.Faithful(pc)
    ensures GenerateAnsi(pc, colors, roles).Ok?
      <==> |colors| > 0 && |roles| > 0 && Dict.HasKey(roles, ColorAssign.Role("bg-primary"))
    ensures |colors| == 0 || |roles| == 0 ==>
      GenerateAnsi(pc, colors, roles) == Err(ValueError("max() arg is an empty sequence"))
    ensures |colors| > 0 && |roles| > 0 && !Dict.HasKey(roles, ColorAssign.Role("bg-primary")) ==>
      GenerateAnsi(pc, colors, roles) == Err(KeyError("bg-primary"))
  {
    GenerateAnsiFaults(pc, colors, roles);
    if |colors| > 0 && |roles| > 0 {
      var accent := AssignLogic.SelectVibrant(pc, colors).1;
      CylinderRanges(accent);
      BaseAccepts(ToHsl(accent), Dict.Values(roles));
    }
  }

  /** The two ways `generate_ansi` fails, each with its own error. */
  lemma GenerateAnsiFaults(pc: Gamma.PowerCurves, colors: seq<ColorData>, roles: ColorAssign.ThemeDict)
    requires Gamma.Faithful(pc)
    ensures |colors| == 0 || |roles| == 0 ==>
      GenerateAnsi(pc, colors, roles) == Err(ValueError("max() arg is an empty sequence"))
    ensures |colors| > 0 && |roles| > 0 && !Dict.HasKey(roles, ColorAssign.Role("bg-primary")) ==>
      GenerateAnsi(pc, colors, roles) == Err(KeyError("bg-primary"))
  {
    if |colors| > 0 && |roles| > 0 {
      var accent := AssignLogic.SelectVibrant(pc, colors).1;
      var acc := ToHsl(accent);
      var values := Dict.Values(roles);
      CylinderRanges(accent);
      BaseAccepts(acc, values);
      var need := ColorAssign.Need(roles, ColorAssign.Role("bg-primary"));
      assert ColorAssign.KeyName(ColorAssign.Role("bg-primary")) == "bg-primary";
      if need.Err? {
        assert GenerateAnsi(pc, colors, roles) == Err(need.fault);
      }
    }
  }

  /** The scheme built from any accent and non-empty roles is produced. */
  lemma BaseAccepts(acc: Hsl, values: seq<Rgb>)
    requires |values| > 0
    requires 0.0 <= acc.s <= 1.0 && 0.0 <= acc.l <= 1.0
    ensures Ansi4Bit.GenerateColorScheme(AnsiScheme(acc, BrightestLightness(values)), DyeCorrected(acc)).Ok?
  {
    var brightL := BrightestLightness(values);
    assert 0.0 <= brightL <= 1.0 by {
      var i :| 0 <= i < |values| && ToHsl(values[i]).l == brightL;
      CylinderRanges(values[i]);
    }
    AnsiSchemeShape(acc, brightL);
    Ansi4Bit.GenerateAccepts(AnsiScheme(acc, brightL), DyeCorrected(acc));
  }

  /** A produced palette has sixteen entries. */
  lemma GenerateAnsiLength(pc: Gamma.PowerCurves, colors: seq<ColorData>, roles: ColorAssign.ThemeDict)
    requires Gamma.Faithful(pc)
    requires GenerateAnsi(pc, colors, roles).Ok?
    ensures |GenerateAnsi(pc, colors, roles).value| == 16
  {
    GenerateAnsiLayout(pc, colors, roles);
  }

  /** A produced theme has the sixteen slots of the 4bit scheme, each
      rewritten as `FinishPointwise` says, against the bg-primary role. */
  lemma GenerateAnsiLayout(pc: Gamma.PowerCurves, colors: seq<ColorData>, roles: ColorAssign.ThemeDict)
    requires Gamma.Faithful(pc)
    requires GenerateAnsi(pc, colors, roles).Ok?
    ensures var accent := AssignLogic.SelectVibrant(pc, colors).1;
      var acc := ToHsl(accent);
      var base := Ansi4Bit.GenerateColorScheme(AnsiScheme(acc, BrightestLightness(Dict.Values(roles))), DyeCorrected(acc));
      var bg := ColorAssign.Need(roles, ColorAssign.Role("bg-primary"));
      var r := GenerateAnsi(pc, colors, roles).value;
      && base.Ok? && bg.Ok?
      && |r| == 16
      && forall i :: 0 <= i < 16 ==>
           r[i] == if i in ChromaSlots then FixSlot(pc, bg.value, Boost(i, ReplaceSlot(pc, colors, Luma(pc, accent), i, base.value[i])))
                   else Boost(i, base.value[i])
  {
    var accent := AssignLogic.SelectVibrant(pc, colors).1;
    var acc := ToHsl(accent);
    var scheme := AnsiScheme(acc, BrightestLightness(Dict.Values(roles)));
    var base := Ansi4Bit.GenerateColorScheme(scheme, DyeCorrected(acc));
    var bg := ColorAssign.Need(roles, ColorAssign.Role("bg-primary"));
    Ansi4Bit.DyedLayout(scheme, DyeCorrected(acc));
    FinishPointwise(pc, colors, Luma(pc, accent), base.value, bg.value);
  }

  /** `generate_ansi` as written: `_select_vibrant_color(color_data, "dark")`
      passes two arguments to a one-parameter function, so the call raises
      before anything else happens. */
  function GenerateAnsiAsWritten(pc: Gamma.PowerCurves, colors: seq<ColorData>, roles: ColorAssign.ThemeDict): (r: Result<seq<Rgb>>)
    ensures r.Err? && r.fault.TypeError?
  {
    Err(TypeError("_select_vibrant_color() takes 1 positional argument but 2 were given"))
  }
}
