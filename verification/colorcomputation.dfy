/** The pair-based blend solver and the near-white test of
    `color_computation.py`. Its `to_linear`, `linear_to_standard`, `luma`,
    `contrast_ratio` and `blend` are the ones of `Gamma` and `ColorMath`. */
module ColorComputation {
  import opened Wrappers
  import opened Numeric
  import Gamma
  import opened Colors
  import ColorMath

  /** `(lighter + 0.05) / (darker + 0.05)` on normalised lumas, in the order
      given. */
  function PairRatio(lighter: real, darker: real): real
    requires 0.0 <= darker
  {
    (lighter + 0.05) / (darker + 0.05)
  }

  /** `_find_optimal_blend_for_contrast` on lumas (0..255); an anchor is the
      luma of `brighten_toward` or `darken_toward`. Exactly one anchor must
      be given. Brightening moves the lighter colour up toward its anchor,
      darkening moves the darker one down. */
  function BlendForContrastOfLumas(target: real, darkerLuma: real, lighterLuma: real,
                                   brighten: Option<real>, darken: Option<real>, maxBlend: real): (res: Result<real>)
    requires 0.0 <= darkerLuma <= 255.0 && 0.0 <= lighterLuma <= 255.0
    requires brighten.Some? ==> 0.0 <= brighten.value <= 255.0
    requires darken.Some? ==> 0.0 <= darken.value <= 255.0
    ensures res.Err? <==> brighten.None? == darken.None?
    ensures res.Err? ==> res.fault.ValueError?
    ensures res.Ok? && PairRatio(lighterLuma / 255.0, darkerLuma / 255.0) >= target ==> res.value == 0.0
    ensures res.Ok? ==> res.value == -1.0 || 0.0 <= res.value <= Min(1.0, Max(0.0, maxBlend))
    ensures brighten.Some? && darken.None? ==>
      (res.value == -1.0 <==>
        PairRatio(lighterLuma / 255.0, darkerLuma / 255.0) < target
        && brighten.value / 255.0 < Mul(target, darkerLuma / 255.0 + 0.05) - 0.05)
    ensures darken.Some? && brighten.None? ==>
      (res.value == -1.0 <==>
        0.0 < target && PairRatio(lighterLuma / 255.0, darkerLuma / 255.0) < target
        && darken.value / 255.0 > (lighterLuma / 255.0 + 0.05) / target - 0.05)
  {
    if brighten.None? && darken.None? then
      Err(ValueError("Must specify either brighten_toward or darken_toward"))
    else if brighten.Some? && darken.Some? then
      Err(ValueError("Cannot specify both brighten_toward and darken_toward"))
    else
      var darker, lighter := darkerLuma / 255.0, lighterLuma / 255.0;
      if PairRatio(lighter, darker) >= target then Ok(0.0)
      else if brighten.Some? then
        var anchor := brighten.value / 255.0;
        var need := Mul(target, darker + 0.05) - 0.05;
        if anchor < need then Ok(-1.0)
        else
          var den := anchor - lighter;
          if Abs(den) < ColorMath.Epsilon then Ok(0.0)
          else
            BrightenStep(target, darker, lighter, anchor);
            Ok(Max(0.0, Min(maxBlend, (need - lighter) / den)))
      else
        var anchor := darken.value / 255.0;
        DarkenTarget(target, darker, lighter);
        var need := (lighter + 0.05) / target - 0.05;
        if anchor > need then Ok(-1.0)
        else
          var den := anchor - darker;
          if Abs(den) < ColorMath.Epsilon then Ok(0.0)
          else
            DarkenStep(target, darker, lighter, anchor);
            Ok(Max(0.0, Min(maxBlend, (need - darker) / den)))
  }

  /** When brightening is needed and reachable, the lighter colour is below
      the required luma and the raw amount is in (0, 1]. */
  lemma BrightenStep(target: real, darker: real, lighter: real, anchor: real)
    requires 0.0 <= darker && PairRatio(lighter, darker) < target
    requires Mul(target, darker + 0.05) - 0.05 <= anchor && anchor - lighter != 0.0
    ensures var need := Mul(target, darker + 0.05) - 0.05;
      lighter < need && 0.0 < (need - lighter) / (anchor - lighter) <= 1.0
  {
    QuotientBelow(lighter + 0.05, darker + 0.05, target);
    var need := Mul(target, darker + 0.05) - 0.05;
    RatioInUnit(need - lighter, anchor - lighter);
  }

  /** A contrast below the target makes the target positive. */
  lemma DarkenTarget(target: real, darker: real, lighter: real)
    requires 0.0 <= darker && 0.0 <= lighter && PairRatio(lighter, darker) < target
    ensures 0.0 < target
  {
    RatioInUnit(0.0, darker + 0.05);
    assert 0.0 < PairRatio(lighter, darker);
  }

  /** When darkening is needed and reachable, the darker colour is above
      the required luma and the raw amount is in (0, 1]. */
  lemma DarkenStep(target: real, darker: real, lighter: real, anchor: real)
    requires 0.0 <= darker && 0.0 <= lighter && PairRatio(lighter, darker) < target
    requires 0.0 < target
    requires anchor <= (lighter + 0.05) / target - 0.05 && anchor - darker != 0.0
    ensures var need := (lighter + 0.05) / target - 0.05;
      need < darker && 0.0 < (need - darker) / (anchor - darker) <= 1.0
  {
    QuotientSwap(lighter + 0.05, darker + 0.05, target);
    var need := (lighter + 0.05) / target - 0.05;
    RatioInUnit(darker - need, darker - anchor);
    QuotientNegate(darker - need, darker - anchor);
  }

  /** `_find_optimal_blend_for_contrast(target, darker_rgb, lighter_rgb,
      brighten_toward, darken_toward, max_blend)`. */
  function BlendForContrast(pc: Gamma.PowerCurves, target: real, darkerRgb: Rgb, lighterRgb: Rgb,
                            brighten: Option<Rgb>, darken: Option<Rgb>, maxBlend: real): (res: Result<real>)
    requires Gamma.Faithful(pc)
    ensures res.Err? <==> brighten.None? == darken.None?
    ensures res.Err? ==> res.fault.ValueError?
    ensures res.Ok? ==> res.value == -1.0 || 0.0 <= res.value <= Min(1.0, Max(0.0, maxBlend))
  {
    LumaOfRgbRange(pc, darkerRgb);
    LumaOfRgbRange(pc, lighterRgb);
    var b := if brighten.Some? then LumaOfRgbRange(pc, brighten.value); Some(Luma(pc, brighten.value)) else None;
    var d := if darken.Some? then LumaOfRgbRange(pc, darken.value); Some(Luma(pc, darken.value)) else None;
    BlendForContrastOfLumas(target, Luma(pc, darkerRgb), Luma(pc, lighterRgb), b, d, maxBlend)
  }

  lemma LumaOfRgbRange(pc: Gamma.PowerCurves, c: Rgb)
    requires Gamma.Faithful(pc)
    ensures 0.0 <= Luma(pc, c) <= 255.0
  {
    Gamma.LumaRange(pc, c.r, c.g, c.b);
  }

  /** An amount strictly between 0 and `max_blend` is exact: the moved
      colour's luma, interpolated toward the anchor, reaches the required
      luma and the pair's contrast becomes the target. */
  lemma BlendForContrastHitsTarget(target: real, darkerLuma: real, lighterLuma: real,
                                   brighten: Option<real>, darken: Option<real>, maxBlend: real)
    requires 0.0 <= darkerLuma <= 255.0 && 0.0 <= lighterLuma <= 255.0
    requires brighten.Some? ==> 0.0 <= brighten.value <= 255.0
    requires darken.Some? ==> 0.0 <= darken.value <= 255.0
    ensures var res := BlendForContrastOfLumas(target, darkerLuma, lighterLuma, brighten, darken, maxBlend);
      var darker, lighter := darkerLuma / 255.0, lighterLuma / 255.0;
      res.Ok? && 0.0 < res.value < maxBlend && brighten.Some? ==>
        var anchor := brighten.value / 255.0;
        PairRatio(Lerp(lighter, anchor, res.value), darker) == target
    ensures var res := BlendForContrastOfLumas(target, darkerLuma, lighterLuma, brighten, darken, maxBlend);
      var darker, lighter := darkerLuma / 255.0, lighterLuma / 255.0;
      res.Ok? && 0.0 < res.value < maxBlend && darken.Some? ==>
        var anchor := darken.value / 255.0;
        && 0.0 <= Lerp(darker, anchor, res.value)
        && PairRatio(lighter, Lerp(darker, anchor, res.value)) == target
  {
    if brighten.Some? && darken.None? {
      BrightenBlendHits(target, darkerLuma, lighterLuma, brighten.value, maxBlend);
    } else if darken.Some? && brighten.None? {
      DarkenBlendHits(target, darkerLuma, lighterLuma, darken.value, maxBlend);
    }
  }

  lemma BrightenBlendHits(target: real, darkerLuma: real, lighterLuma: real, toward: real, maxBlend: real)
    requires 0.0 <= darkerLuma <= 255.0 && 0.0 <= lighterLuma <= 255.0 && 0.0 <= toward <= 255.0
    ensures var res := BlendForContrastOfLumas(target, darkerLuma, lighterLuma, Some(toward), None, maxBlend);
      res.Ok? && 0.0 < res.value < maxBlend ==>
        PairRatio(Lerp(lighterLuma / 255.0, toward / 255.0, res.value), darkerLuma / 255.0) == target
  {
    var res := BlendForContrastOfLumas(target, darkerLuma, lighterLuma, Some(toward), None, maxBlend);
    if res.Ok? && 0.0 < res.value < maxBlend {
      BrightenHits(target, darkerLuma / 255.0, lighterLuma / 255.0, toward / 255.0, res.value);
    }
  }

  lemma DarkenBlendHits(target: real, darkerLuma: real, lighterLuma: real, toward: real, maxBlend: real)
    requires 0.0 <= darkerLuma <= 255.0 && 0.0 <= lighterLuma <= 255.0 && 0.0 <= toward <= 255.0
    ensures var res := BlendForContrastOfLumas(target, darkerLuma, lighterLuma, None, Some(toward), maxBlend);
      res.Ok? && 0.0 < res.value < maxBlend ==>
        && 0.0 <= Lerp(darkerLuma / 255.0, toward / 255.0, res.value)
        && PairRatio(lighterLuma / 255.0, Lerp(darkerLuma / 255.0, toward / 255.0, res.value)) == target
  {
    var res := BlendForContrastOfLumas(target, darkerLuma, lighterLuma, None, Some(toward), maxBlend);
    if res.Ok? && 0.0 < res.value < maxBlend {
      DarkenHits(target, darkerLuma / 255.0, lighterLuma / 255.0, toward / 255.0, res.value);
    }
  }

  lemma BrightenHits(target: real, darker: real, lighter: real, anchor: real, t: real)
    requires 0.0 <= darker && anchor - lighter != 0.0
    requires t == (Mul(target, darker + 0.05) - 0.05 - lighter) / (anchor - lighter)
    ensures PairRatio(Lerp(lighter, anchor, t), darker) == target
  {
    var need := Mul(target, darker + 0.05) - 0.05;
    MulDivCancel(need - lighter, anchor - lighter);
    assert Lerp(lighter, anchor, t) == need;
    MulQuotient(target, darker + 0.05);
  }

  lemma DarkenHits(target: real, darker: real, lighter: real, anchor: real, t: real)
    requires 0.0 <= darker && 0.0 <= lighter && PairRatio(lighter, darker) < target
    requires anchor - darker != 0.0
    requires t == ((lighter + 0.05) / target - 0.05 - darker) / (anchor - darker)
    requires 0.0 <= (lighter + 0.05) / target - 0.05
    ensures 0.0 <= Lerp(darker, anchor, t)
    ensures PairRatio(lighter, Lerp(darker, anchor, t)) == target
  {
    DarkenTarget(target, darker, lighter);
    var need := (lighter + 0.05) / target - 0.05;
    MulDivCancel(need - darker, anchor - darker);
    assert Lerp(darker, anchor, t) == need;
    QuotientOfQuotient(lighter + 0.05, target);
  }

  /** The -1 sentinel means that no amount in [0, 1] of blending toward
      the anchor brings the moved colour to the required luma. */
  lemma BlendForContrastSentinel(target: real, darkerLuma: real, lighterLuma: real,
                                 brighten: Option<real>, darken: Option<real>, maxBlend: real)
    requires 0.0 <= darkerLuma <= 255.0 && 0.0 <= lighterLuma <= 255.0
    requires brighten.Some? ==> 0.0 <= brighten.value <= 255.0
    requires darken.Some? ==> 0.0 <= darken.value <= 255.0
    ensures var res := BlendForContrastOfLumas(target, darkerLuma, lighterLuma, brighten, darken, maxBlend);
      var darker, lighter := darkerLuma / 255.0, lighterLuma / 255.0;
      res == Ok(-1.0) && brighten.Some? ==>
        var anchor, need := brighten.value / 255.0, Mul(target, darker + 0.05) - 0.05;
        forall a :: 0.0 <= a <= 1.0 ==> Lerp(lighter, anchor, a) < need
    ensures var res := BlendForContrastOfLumas(target, darkerLuma, lighterLuma, brighten, darken, maxBlend);
      var darker, lighter := darkerLuma / 255.0, lighterLuma / 255.0;
      res == Ok(-1.0) && darken.Some? ==>
        && 0.0 < target
        && var anchor, need := darken.value / 255.0, (lighter + 0.05) / target - 0.05;
           forall a :: 0.0 <= a <= 1.0 ==> Lerp(darker, anchor, a) > need
  {
    var res := BlendForContrastOfLumas(target, darkerLuma, lighterLuma, brighten, darken, maxBlend);
    var darker, lighter := darkerLuma / 255.0, lighterLuma / 255.0;
    if res == Ok(-1.0) {
      if brighten.Some? {
        var anchor := brighten.value / 255.0;
        QuotientBelow(lighter + 0.05, darker + 0.05, target);
        forall a | 0.0 <= a <= 1.0
          ensures Lerp(lighter, anchor, a) < Mul(target, darker + 0.05) - 0.05
        {
          LerpBetween(lighter, anchor, a);
        }
      } else {
        var anchor := darken.value / 255.0;
        DarkenTarget(target, darker, lighter);
        QuotientSwap(lighter + 0.05, darker + 0.05, target);
        forall a | 0.0 <= a <= 1.0
          ensures Lerp(darker, anchor, a) > (lighter + 0.05) / target - 0.05
        {
          LerpBetween(darker, anchor, a);
        }
      }
    }
  }

  /** In the degenerate case, where the anchor's luma is within 1e-6 of the
      moved colour's, the required luma is within 1e-6 as well, so the 0.0
      returned here is also what `find_optimal_blend`'s own degenerate rule
      gives: the two solvers agree. */
  lemma DegenerateAgrees(target: real, darkerLuma: real, lighterLuma: real,
                         brighten: Option<real>, darken: Option<real>, maxBlend: real)
    requires 0.0 <= darkerLuma <= 255.0 && 0.0 <= lighterLuma <= 255.0
    requires brighten.Some? ==> 0.0 <= brighten.value <= 255.0
    requires darken.Some? ==> 0.0 <= darken.value <= 255.0
    ensures var darker, lighter := darkerLuma / 255.0, lighterLuma / 255.0;
      brighten.Some? && darken.None? && PairRatio(lighter, darker) < target
      && Mul(target, darker + 0.05) - 0.05 <= brighten.value / 255.0
      && Abs(brighten.value / 255.0 - lighter) < ColorMath.Epsilon
      ==> Abs(Mul(target, darker + 0.05) - 0.05 - lighter) <= ColorMath.Epsilon
    ensures var darker, lighter := darkerLuma / 255.0, lighterLuma / 255.0;
      darken.Some? && brighten.None? && PairRatio(lighter, darker) < target
      && darken.value / 255.0 <= (lighter + 0.05) / target - 0.05
      && Abs(darken.value / 255.0 - darker) < ColorMath.Epsilon
      ==> Abs((lighter + 0.05) / target - 0.05 - darker) <= ColorMath.Epsilon
  {
    var darker, lighter := darkerLuma / 255.0, lighterLuma / 255.0;
    if PairRatio(lighter, darker) < target {
      QuotientBelow(lighter + 0.05, darker + 0.05, target);
      DarkenTarget(target, darker, lighter);
      QuotientSwap(lighter + 0.05, darker + 0.05, target);
    }
  }

  /** `_is_near_white(color, max_channel_diff, min_luma)`: the channels are
      within `max_channel_diff` of each other and the luma reaches
      `min_luma`. The defaults are 50 and 130. */
  predicate IsNearWhite(pc: Gamma.PowerCurves, c: Rgb, maxChannelDiff: int, minLuma: int)
  {
    MaxChannel(c) - MinChannel(c) <= maxChannelDiff && Luma(pc, c) >= minLuma as real
  }

  /** With the default thresholds: white is near white, black and pure red
      are not, and among greys near-whiteness is upward closed. */
  lemma NearWhiteShape(pc: Gamma.PowerCurves, g: Channel, g': Channel)
    requires Gamma.Faithful(pc)
    ensures IsNearWhite(pc, Rgb(255, 255, 255), 50, 130)
    ensures !IsNearWhite(pc, Rgb(0, 0, 0), 50, 130)
    ensures !IsNearWhite(pc, Rgb(255, 0, 0), 50, 130)
    ensures g <= g' && IsNearWhite(pc, Rgb(g, g, g), 50, 130) ==> IsNearWhite(pc, Rgb(g', g', g'), 50, 130)
  {
    Gamma.LumaRange(pc, 255, 255, 255);
    Gamma.LumaRange(pc, 0, 0, 0);
    if g <= g' {
      Gamma.LumaMonotone(pc, g, g, g, g', g', g');
    }
  }
}
