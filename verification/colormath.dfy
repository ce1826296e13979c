/** Blending in linear light and the closed-form blend solver of
    `color_math.py`. */
module ColorMath {
  import opened Wrappers
  import opened Numeric
  import Gamma
  import opened Colors

  /** `(1 - amount) * x + amount * y`. */
  function Mix(x: real, y: real, amount: real): real
  {
    Mul(1.0 - amount, x) + Mul(amount, y)
  }

  /** The weighted sum is the point `amount` of the way from x to y. */
  lemma MixIsLerp(x: real, y: real, amount: real)
    ensures Mix(x, y, amount) == Lerp(x, y, amount)
  {
    MulDistributes(x, 1.0, amount);
    MulOne(x);
    MulDistributes(amount, y, x);
    MulCommutes(amount, x);
    MulCommutes(amount, y);
  }

  /** One channel of `blend`: both channels to linear light, mixed, and
      encoded back. */
  function BlendChannel(pc: Gamma.PowerCurves, c: Channel, d: Channel, amount: real): int
  {
    Gamma.LinearToStandard(pc, Mix(Gamma.ToLinear(pc, c), Gamma.ToLinear(pc, d), amount))
  }

  /** `blend(color, blend_with, amount)`; the RGB constructor rejects a
      channel the mix pushes out of range. */
  function Blend(pc: Gamma.PowerCurves, color: Rgb, with: Rgb, amount: real): Result<Rgb>
  {
    MakeRgb(BlendChannel(pc, color.r, with.r, amount),
            BlendChannel(pc, color.g, with.g, amount),
            BlendChannel(pc, color.b, with.b, amount))
  }

  /** A blended channel lies between its two inputs, and the end amounts
      give the inputs back. */
  lemma BlendChannelBetween(pc: Gamma.PowerCurves, c: Channel, d: Channel, amount: real)
    requires Gamma.Faithful(pc) && 0.0 <= amount <= 1.0
    ensures c <= d ==> c <= BlendChannel(pc, c, d, amount) <= d
    ensures d <= c ==> d <= BlendChannel(pc, c, d, amount) <= c
    ensures amount == 0.0 ==> BlendChannel(pc, c, d, amount) == c
    ensures amount == 1.0 ==> BlendChannel(pc, c, d, amount) == d
  {
    var x, y := Gamma.ToLinear(pc, c), Gamma.ToLinear(pc, d);
    var m := Mix(x, y, amount);
    MixIsLerp(x, y, amount);
    LerpBetween(x, y, amount);
    Gamma.ToLinearRange(pc, c);
    Gamma.ToLinearRange(pc, d);
    Gamma.StandardRoundTrip(pc, c);
    Gamma.StandardRoundTrip(pc, d);
    if c <= d {
      Gamma.ToLinearMonotone(pc, c, d);
      Gamma.LinearToStandardMonotone(pc, x, m);
      Gamma.LinearToStandardMonotone(pc, m, y);
    } else {
      Gamma.ToLinearMonotone(pc, d, c);
      Gamma.LinearToStandardMonotone(pc, y, m);
      Gamma.LinearToStandardMonotone(pc, m, x);
    }
    if amount == 0.0 {
      MulZero(y - x);
    } else if amount == 1.0 {
      MulOne(y - x);
    }
  }

  /** For an amount in [0, 1] `blend` never raises, every channel lies
      between the two colours' channels, amount 0 keeps `color` and amount 1
      gives `blend_with`. */
  lemma BlendBetween(pc: Gamma.PowerCurves, color: Rgb, with: Rgb, amount: real)
    requires Gamma.Faithful(pc) && 0.0 <= amount <= 1.0
    ensures Blend(pc, color, with, amount).Ok?
    ensures var c := Blend(pc, color, with, amount).value;
      && (MinInt(color.r, with.r) <= c.r <= MaxInt(color.r, with.r))
      && (MinInt(color.g, with.g) <= c.g <= MaxInt(color.g, with.g))
      && (MinInt(color.b, with.b) <= c.b <= MaxInt(color.b, with.b))
    ensures amount == 0.0 ==> Blend(pc, color, with, amount) == Ok(color)
    ensures amount == 1.0 ==> Blend(pc, color, with, amount) == Ok(with)
  {
    BlendChannelBetween(pc, color.r, with.r, amount);
    BlendChannelBetween(pc, color.g, with.g, amount);
    BlendChannelBetween(pc, color.b, with.b, amount);
  }

  /** The normalised luma a colour needs for a contrast of exactly `target`
      against `other`: above it when `base` is the lighter one, below it
      otherwise. */
  function RequiredLuma(base: real, other: real, target: real): real
    requires target != 0.0
  {
    if base >= other then Mul(target, other + 0.05) - 0.05
    else (other + 0.05) / target - 0.05
  }

  /** For a target of at least 1 the required luma stays on the base's
      side of `other` and has contrast exactly `target` with it. */
  lemma RequiredLumaMeetsTarget(base: real, other: real, target: real)
    requires 0.0 <= other && 1.0 <= target
    ensures var need := RequiredLuma(base, other, target);
      && (base >= other ==> other <= need)
      && (base < other ==> -0.05 < need <= other)
      && Gamma.ContrastDefined(need * 255.0, other * 255.0)
      && Gamma.ContrastRatio(need * 255.0, other * 255.0) == target
  {
    var need := RequiredLuma(base, other, target);
    var y := other + 0.05;
    if base >= other {
      MulGrows(target, y);
      MulQuotient(target, y);
      assert Max(need * 255.0, other * 255.0) / 255.0 + 0.05 == Mul(target, y);
      assert Min(need * 255.0, other * 255.0) / 255.0 + 0.05 == y;
    } else {
      QuotientShrinks(y, target);
      QuotientOfQuotient(y, target);
      assert Max(need * 255.0, other * 255.0) / 255.0 + 0.05 == y;
      assert Min(need * 255.0, other * 255.0) / 255.0 + 0.05 == y / target;
    }
  }

  /** The luma difference below which two colours count as equal. */
  const Epsilon: real := 0.000001

  /** `find_optimal_blend` on the three colours' lumas (0..255): 0 when the
      contrast already meets the target, -1 when blending toward the blend
      colour cannot reach it, otherwise the amount clamped to `max_blend`. */
  function OptimalBlendOfLumas(baseLuma: real, blendLuma: real, withLuma: real, target: real, maxBlend: real): (r: real)
    requires 0.0 <= baseLuma <= 255.0 && 0.0 <= blendLuma <= 255.0 && 0.0 <= withLuma <= 255.0
    ensures Gamma.ContrastDefined(baseLuma, withLuma)
    ensures Gamma.ContrastDefined(baseLuma, withLuma) && Gamma.ContrastRatio(baseLuma, withLuma) >= target
      ==> r == 0.0
    ensures r == -1.0 || 0.0 <= r <= Min(1.0, Max(0.0, maxBlend))
  {
    Gamma.ContrastBounds(baseLuma, withLuma);
    var base, blend, with := baseLuma / 255.0, blendLuma / 255.0, withLuma / 255.0;
    if Gamma.ContrastRatio(baseLuma, withLuma) >= target then 0.0
    else
      var need := RequiredLuma(base, with, target);
      var den := blend - base;
      if Abs(den) < Epsilon then
        if Abs(need - base) > Epsilon then -1.0 else 0.0
      else
        var t := (need - base) / den;
        if !(0.0 <= t <= 1.0) then -1.0
        else Max(0.0, Min(maxBlend, t))
  }

  /** `find_optimal_blend(base_col, blend_col, contrast_with, target, max_blend)`. */
  function FindOptimalBlend(pc: Gamma.PowerCurves, base: Rgb, blendCol: Rgb, with: Rgb, target: real, maxBlend: real): (r: real)
    requires Gamma.Faithful(pc)
    ensures Gamma.ContrastDefined(Luma(pc, base), Luma(pc, with))
    ensures Gamma.ContrastDefined(Luma(pc, base), Luma(pc, with))
      && Gamma.ContrastRatio(Luma(pc, base), Luma(pc, with)) >= target
      ==> r == 0.0
    ensures r == -1.0 || 0.0 <= r <= Min(1.0, Max(0.0, maxBlend))
  {
    Gamma.LumaRange(pc, base.r, base.g, base.b);
    Gamma.LumaRange(pc, blendCol.r, blendCol.g, blendCol.b);
    Gamma.LumaRange(pc, with.r, with.g, with.b);
    OptimalBlendOfLumas(Luma(pc, base), Luma(pc, blendCol), Luma(pc, with), target, maxBlend)
  }

  /** An amount strictly between 0 and `max_blend` is the exact solution:
      interpolating the lumas by it gives the required luma, whose contrast
      with `contrast_with` is exactly the target. */
  lemma OptimalBlendHitsTarget(baseLuma: real, blendLuma: real, withLuma: real, target: real, maxBlend: real)
    requires 0.0 <= baseLuma <= 255.0 && 0.0 <= blendLuma <= 255.0 && 0.0 <= withLuma <= 255.0
    ensures var r := OptimalBlendOfLumas(baseLuma, blendLuma, withLuma, target, maxBlend);
      var reached := Lerp(baseLuma / 255.0, blendLuma / 255.0, r);
      0.0 < r < maxBlend ==>
        && 1.0 < target
        && reached == RequiredLuma(baseLuma / 255.0, withLuma / 255.0, target)
        && Gamma.ContrastDefined(reached * 255.0, withLuma)
        && Gamma.ContrastRatio(reached * 255.0, withLuma) == target
  {
    var r := OptimalBlendOfLumas(baseLuma, blendLuma, withLuma, target, maxBlend);
    Gamma.ContrastBounds(baseLuma, withLuma);
    var base, blend, with := baseLuma / 255.0, blendLuma / 255.0, withLuma / 255.0;
    if 0.0 < r < maxBlend {
      var need := RequiredLuma(base, with, target);
      var den := blend - base;
      assert r == (need - base) / den;
      MulDivCancel(need - base, den);
      RequiredLumaMeetsTarget(base, with, target);
      assert with * 255.0 == withLuma;
    }
  }

  /** The -1 sentinel is returned only when no amount in [0, 1] reaches the
      required luma. */
  lemma OptimalBlendSentinel(baseLuma: real, blendLuma: real, withLuma: real, target: real, maxBlend: real)
    requires 0.0 <= baseLuma <= 255.0 && 0.0 <= blendLuma <= 255.0 && 0.0 <= withLuma <= 255.0
    ensures var base, blend := baseLuma / 255.0, blendLuma / 255.0;
      OptimalBlendOfLumas(baseLuma, blendLuma, withLuma, target, maxBlend) == -1.0 ==>
        && Gamma.ContrastDefined(baseLuma, withLuma)
        && Gamma.ContrastRatio(baseLuma, withLuma) < target
        && forall a :: 0.0 <= a <= 1.0 ==> Lerp(base, blend, a) != RequiredLuma(base, withLuma / 255.0, target)
  {
    Gamma.ContrastBounds(baseLuma, withLuma);
    var base, blend, with := baseLuma / 255.0, blendLuma / 255.0, withLuma / 255.0;
    if OptimalBlendOfLumas(baseLuma, blendLuma, withLuma, target, maxBlend) == -1.0 {
      var need := RequiredLuma(base, with, target);
      var den := blend - base;
      forall a | 0.0 <= a <= 1.0
        ensures Lerp(base, blend, a) != need
      {
        MulFraction(den, a);
        if Abs(den) >= Epsilon && Lerp(base, blend, a) == need {
          MulSolve(den, a, need - base);
        }
      }
    }
  }

  /** Conversely, when the contrast is short of the target, no amount in
      [0, 1] reaches the required luma, and the two lumas are not both
      within `Epsilon` of equal, the result is the -1 sentinel. */
  lemma OptimalBlendSentinelExact(baseLuma: real, blendLuma: real, withLuma: real, target: real, maxBlend: real)
    requires 0.0 <= baseLuma <= 255.0 && 0.0 <= blendLuma <= 255.0 && 0.0 <= withLuma <= 255.0
    ensures var base, blend := baseLuma / 255.0, blendLuma / 255.0;
      && Gamma.ContrastDefined(baseLuma, withLuma)
      && Gamma.ContrastRatio(baseLuma, withLuma) < target
      && target != 0.0  // implied by the ratio being at least 1
      && (forall a :: 0.0 <= a <= 1.0 ==> Lerp(base, blend, a) != RequiredLuma(base, withLuma / 255.0, target))
      && !(Abs(blend - base) < Epsilon && Abs(RequiredLuma(base, withLuma / 255.0, target) - base) <= Epsilon)
      ==> OptimalBlendOfLumas(baseLuma, blendLuma, withLuma, target, maxBlend) == -1.0
  {
    Gamma.ContrastBounds(baseLuma, withLuma);
    var base, blend, with := baseLuma / 255.0, blendLuma / 255.0, withLuma / 255.0;
    if Gamma.ContrastRatio(baseLuma, withLuma) < target
      && (forall a :: 0.0 <= a <= 1.0 ==> Lerp(base, blend, a) != RequiredLuma(base, with, target))
    {
      var need := RequiredLuma(base, with, target);
      var den := blend - base;
      if Abs(den) >= Epsilon {
        var t := (need - base) / den;
        MulDivCancel(need - base, den);
        assert Lerp(base, blend, t) == need;
      }
    }
  }

  /** An amount short of a solution `t` of the blend equation leaves the
      blended luma on the base's side of the required luma. */
  lemma ShortOfSolution(base: real, blend: real, need: real, a: real)
    requires blend - base != 0.0 && 0.0 <= a < (need - base) / (blend - base)
    ensures base <= need ==> base <= Lerp(base, blend, a) < need
    ensures need <= base ==> need < Lerp(base, blend, a) <= base
  {
    var den, t := blend - base, (need - base) / (blend - base);
    MulDivCancel(need - base, den);
    if den > 0.0 {
      assert Mul(den, a) < Mul(den, t);
    } else {
      assert Mul(den, t) < Mul(den, a);
    }
  }

  /** Between the base luma and the required luma the contrast with
      `contrast_with` stays below the target. */
  lemma BelowRequiredLuma(base: real, with: real, target: real, x: real)
    requires 0.0 <= base && 0.0 <= with && 1.0 <= target
    requires Gamma.ContrastRatio(base * 255.0, with * 255.0) < target
    requires var need := RequiredLuma(base, with, target);
      (base <= x < need) || (need < x <= base)
    ensures Gamma.ContrastDefined(x * 255.0, with * 255.0)
    ensures Gamma.ContrastRatio(x * 255.0, with * 255.0) < target
  {
    var need := RequiredLuma(base, with, target);
    RequiredLumaMeetsTarget(base, with, target);
    Gamma.ContrastBounds(base * 255.0, with * 255.0);
    var y := with + 0.05;
    if base >= with {
      QuotientBelow(base + 0.05, y, target);
      assert base < need;
      QuotientBelow(x + 0.05, y, target);
    } else {
      QuotientSwap(y, base + 0.05, target);
      assert need < base;
      QuotientSwap(y, x + 0.05, target);
    }
  }

  /** A result strictly between 0 and `max_blend` is the first amount that
      reaches the target: every smaller amount leaves the contrast short. */
  lemma OptimalBlendFirst(baseLuma: real, blendLuma: real, withLuma: real, target: real, maxBlend: real)
    requires 0.0 <= baseLuma <= 255.0 && 0.0 <= blendLuma <= 255.0 && 0.0 <= withLuma <= 255.0
    ensures var r := OptimalBlendOfLumas(baseLuma, blendLuma, withLuma, target, maxBlend);
      var base, blend := baseLuma / 255.0, blendLuma / 255.0;
      0.0 < r < maxBlend ==>
        forall a :: 0.0 <= a < r ==>
          && Gamma.ContrastDefined(Lerp(base, blend, a) * 255.0, withLuma)
          && Gamma.ContrastRatio(Lerp(base, blend, a) * 255.0, withLuma) < target
  {
    var r := OptimalBlendOfLumas(baseLuma, blendLuma, withLuma, target, maxBlend);
    Gamma.ContrastBounds(baseLuma, withLuma);
    var base, blend, with := baseLuma / 255.0, blendLuma / 255.0, withLuma / 255.0;
    if 0.0 < r < maxBlend {
      var need := RequiredLuma(base, with, target);
      assert r == (need - base) / (blend - base);
      assert base * 255.0 == baseLuma && with * 255.0 == withLuma;
      forall a | 0.0 <= a < r
        ensures Gamma.ContrastDefined(Lerp(base, blend, a) * 255.0, withLuma)
        ensures Gamma.ContrastRatio(Lerp(base, blend, a) * 255.0, withLuma) < target
      {
        ShortOfSolution(base, blend, need, a);
        BelowRequiredLuma(base, with, target, Lerp(base, blend, a));
      }
    }
  }
}
