/** Role assignment of `assign_logic.py`: backgrounds, foregrounds, accents
    and borders chosen from a palette sorted from brightest to darkest. */
module AssignLogic {
  import opened Wrappers
  import opened Numeric
  import Gamma
  import opened Colors
  import ColorMath
  import Transformation
  import Select

  /** The two themes the helpers distinguish (`theme == "dark"` or not). */
  datatype Theme = Dark | Light

  /** Off-white and off-black anchors for blending. */
  const NeutralWhite: Rgb := Rgb(238, 238, 238)
  const NeutralBlack: Rgb := Rgb(18, 18, 18)

  const FgCoverageThreshold: real := 0.2
  const MinContrastPrimary: real := 6.0
  const SecondaryContrastTarget: real := 4.5
  const TertiaryContrastTarget: real := 5.0
  const MaxSaturationFgPrimary: real := 0.3
  const LightMaxSaturationFgTertiary: real := 0.2
  const DarkFgLumaThreshold: real := 90.0
  const DarkBgDarkenAmount: real := 0.3

  predicate Between(x: int, a: int, b: int)
  {
    MinInt(a, b) <= x <= MaxInt(a, b)
  }

  /** Every channel of c lies between the matching channels of a and b. */
  predicate ChannelsBetween(c: Rgb, a: Rgb, b: Rgb)
  {
    Between(c.r, a.r, b.r) && Between(c.g, a.g, b.g) && Between(c.b, a.b, b.b)
  }

  /** A colour between a and b, moved further toward b, is still between
      a and b. */
  lemma BetweenToward(c: Rgb, d: Rgb, a: Rgb, b: Rgb)
    requires ChannelsBetween(c, a, b) && ChannelsBetween(d, c, b)
    ensures ChannelsBetween(d, a, b)
  {
  }

  /** Between two colours, the largest channel is at most the larger of
      their largest channels. */
  lemma BetweenMaxChannel(c: Rgb, a: Rgb, b: Rgb)
    requires ChannelsBetween(c, a, b)
    ensures MaxChannel(c) <= MaxInt(MaxChannel(a), MaxChannel(b))
  {
  }

  /** `blend(a, b, amount)` for an amount in [0, 1]: the constructor cannot
      raise there, so the colour is returned directly. */
  function Mixed(pc: Gamma.PowerCurves, a: Rgb, b: Rgb, amount: real): (c: Rgb)
    requires Gamma.Faithful(pc) && 0.0 <= amount <= 1.0
    ensures ChannelsBetween(c, a, b)
    ensures amount == 0.0 ==> c == a
    ensures amount == 1.0 ==> c == b
  {
    ColorMath.BlendBetween(pc, a, b, amount);
    ColorMath.Blend(pc, a, b, amount).value
  }

  /** The contrast ratio of two lumas in 0..255: defined, and in [1, 21]. */
  function LumaContrast(l1: real, l2: real): (r: real)
    requires 0.0 <= l1 <= 255.0 && 0.0 <= l2 <= 255.0
    ensures 1.0 <= r <= 21.0
    ensures Gamma.ContrastDefined(l1, l2)
    ensures r == Gamma.ContrastRatio(l1, l2)
  {
    Gamma.ContrastBounds(l1, l2);
    Gamma.ContrastRatio(l1, l2)
  }

  lemma LumaContrastSymmetric(l1: real, l2: real)
    requires 0.0 <= l1 <= 255.0 && 0.0 <= l2 <= 255.0
    ensures LumaContrast(l1, l2) == LumaContrast(l2, l1)
  {
    Gamma.ContrastSymmetric(l1, l2);
  }

  /** `contrast_ratio(a.luma, b.luma)`: colour lumas are in 0..255, so the
      ratio is defined and lies in [1, 21]. */
  function Contrast(pc: Gamma.PowerCurves, a: Rgb, b: Rgb): (r: real)
    requires Gamma.Faithful(pc)
    ensures 1.0 <= r <= 21.0
    ensures Gamma.ContrastDefined(Luma(pc, a), Luma(pc, b))
    ensures r == Gamma.ContrastRatio(Luma(pc, a), Luma(pc, b))
  {
    Gamma.LumaRange(pc, a.r, a.g, a.b);
    Gamma.LumaRange(pc, b.r, b.g, b.b);
    LumaContrast(Luma(pc, a), Luma(pc, b))
  }

  /** The order of the two colours does not matter, so the light theme's
      `contrast_ratio(bg.luma, fg.luma)` is the same check. */
  lemma ContrastOrderFree(pc: Gamma.PowerCurves, a: Rgb, b: Rgb)
    requires Gamma.Faithful(pc)
    ensures Contrast(pc, a, b) == Contrast(pc, b, a)
  {
    var la, lb := Luma(pc, a), Luma(pc, b);
    Gamma.LumaRange(pc, a.r, a.g, a.b);
    Gamma.LumaRange(pc, b.r, b.g, b.b);
    assert Contrast(pc, a, b) == LumaContrast(la, lb);
    assert Contrast(pc, b, a) == LumaContrast(lb, la);
    LumaContrastSymmetric(la, lb);
  }

  /** `find_optimal_blend(base, toward, against, target)` with the default
      `max_blend` of 1. */
  function Solve(pc: Gamma.PowerCurves, base: Rgb, toward: Rgb, against: Rgb, target: real): (t: real)
    requires Gamma.Faithful(pc)
    ensures t == -1.0 || 0.0 <= t <= 1.0
    ensures Contrast(pc, base, against) >= target ==> t == 0.0
  {
    ColorMath.FindOptimalBlend(pc, base, toward, against, target, 1.0)
  }

  /** The check every foreground goes through: keep `base` when its
      contrast with `against` meets the target; otherwise blend it toward
      `toward` by the solver's amount when that is positive, else take
      `fallback`. The solver's -1 is never used as an amount. */
  function KeepOrSolve(pc: Gamma.PowerCurves, base: Rgb, toward: Rgb, against: Rgb, target: real, fallback: Rgb): (r: Rgb)
    requires Gamma.Faithful(pc)
    ensures Contrast(pc, base, against) >= target ==> r == base
    ensures Contrast(pc, base, against) < target ==> r == fallback || ChannelsBetween(r, base, toward)
    ensures Contrast(pc, base, against) < target && Solve(pc, base, toward, against, target) <= 0.0 ==> r == fallback
  {
    if Contrast(pc, base, against) >= target then base
    else
      var ratio := Solve(pc, base, toward, against, target);
      if ratio > 0.0 then Mixed(pc, base, toward, ratio) else fallback
  }

  /** The luma reached by blending `base` toward `toward` by `t`, on the
      0..255 scale. */
  function Reached(pc: Gamma.PowerCurves, base: Rgb, toward: Rgb, t: real): real
  {
    Lerp(Luma(pc, base) / 255.0, Luma(pc, toward) / 255.0, t) * 255.0
  }

  /** When the solver's amount is strictly inside (0, 1) it is exact: the
      luma interpolated by it has contrast exactly `target` with `against`
      (and, by `Solve`'s contract, `base` alone fell short of the target). */
  lemma SolveExact(pc: Gamma.PowerCurves, base: Rgb, toward: Rgb, against: Rgb, target: real)
    requires Gamma.Faithful(pc)
    ensures var t := Solve(pc, base, toward, against, target);
      0.0 < t < 1.0 ==>
        && Gamma.ContrastDefined(Reached(pc, base, toward, t), Luma(pc, against))
        && Gamma.ContrastRatio(Reached(pc, base, toward, t), Luma(pc, against)) == target
  {
    var t := Solve(pc, base, toward, against, target);
    if 0.0 < t < 1.0 {
      SolveOnLumas(pc, base, toward, against, target);
      var reached := Reached(pc, base, toward, t);
      SolveExactLumas(Luma(pc, base), Luma(pc, toward), Luma(pc, against), target, t, reached);
    }
  }

  /** `Solve` sees the colours only through their lumas. */
  lemma SolveOnLumas(pc: Gamma.PowerCurves, base: Rgb, toward: Rgb, against: Rgb, target: real)
    requires Gamma.Faithful(pc)
    ensures 0.0 <= Luma(pc, base) <= 255.0 && 0.0 <= Luma(pc, toward) <= 255.0 && 0.0 <= Luma(pc, against) <= 255.0
    ensures Solve(pc, base, toward, against, target)
      == ColorMath.OptimalBlendOfLumas(Luma(pc, base), Luma(pc, toward), Luma(pc, against), target, 1.0)
  {
    Gamma.LumaRange(pc, base.r, base.g, base.b);
    Gamma.LumaRange(pc, toward.r, toward.g, toward.b);
    Gamma.LumaRange(pc, against.r, against.g, against.b);
  }

  /** The same statement over the three lumas. */
  lemma SolveExactLumas(lb: real, lt: real, la: real, target: real, t: real, reached: real)
    requires 0.0 <= lb <= 255.0 && 0.0 <= lt <= 255.0 && 0.0 <= la <= 255.0
    requires t == ColorMath.OptimalBlendOfLumas(lb, lt, la, target, 1.0) && 0.0 < t < 1.0
    requires reached == Lerp(lb / 255.0, lt / 255.0, t) * 255.0
    ensures Gamma.ContrastDefined(reached, la)
    ensures Gamma.ContrastRatio(reached, la) == target
  {
    ColorMath.OptimalBlendHitsTarget(lb, lt, la, target, 1.0);
  }

  /** ... and it is the amount blended in. */
  lemma KeepOrSolveExact(pc: Gamma.PowerCurves, base: Rgb, toward: Rgb, against: Rgb, target: real, fallback: Rgb)
    requires Gamma.Faithful(pc)
    ensures var t := Solve(pc, base, toward, against, target);
      0.0 < t < 1.0 ==> KeepOrSolve(pc, base, toward, against, target, fallback) == Mixed(pc, base, toward, t)
  {
    SolveExact(pc, base, toward, against, target);
  }

  // ---- Backgrounds ----------------------------------------------------

  /** `_assign_bg`: primary and secondary backgrounds from a palette sorted
      from brightest to darkest. The dark theme reads the last two entries,
      the light theme the first three. */
  function AssignBg(pc: Gamma.PowerCurves, colors: seq<ColorData>, theme: Theme): (res: (Rgb, Rgb))
    requires Gamma.Faithful(pc)
    requires if theme.Dark? then |colors| >= 2 else |colors| >= 1
  {
    var n := |colors|;
    match theme
    case Dark =>
      DarkBg(pc, colors[n - 1].rgb, colors[n - 2].rgb)
    case Light =>
      var top := colors[..MinInt(3, n)];
      var primary := LightPrimary(pc, top[Select.ArgMax(top, Coverage)].rgb);
      (primary, Mixed(pc, primary, NeutralWhite, 0.4))
  }

  function Coverage(c: ColorData): real
  {
    c.coverage
  }

  /** The light theme's primary background from the chosen entry: a
      saturation above 0.5 is scaled by 0.7, then a luma under 120 has its
      value scaled by 1.5. */
  function LightPrimary(pc: Gamma.PowerCurves, chosen: Rgb): Rgb
  {
    var calmer := if ToHsl(chosen).s > 0.5 then Transformation.Saturate(chosen, 0.7) else chosen;
    if Luma(pc, calmer) < 120.0 then Transformation.Brighten(calmer, 1.5) else calmer
  }

  /** Neither step darkens: the largest channel never drops. */
  lemma LightPrimaryNotDarker(pc: Gamma.PowerCurves, chosen: Rgb)
    ensures MaxChannel(chosen) <= MaxChannel(LightPrimary(pc, chosen))
  {
    Transformation.SaturateKeepsMax(chosen, 0.7);
    var calmer := if ToHsl(chosen).s > 0.5 then Transformation.Saturate(chosen, 0.7) else chosen;
    Transformation.BrightenMonotone(calmer, 1.5);
  }

  /** The dark theme's backgrounds from the darkest and second-darkest
      entries: the darkest loses 30% of its value. */
  function DarkBg(pc: Gamma.PowerCurves, darkest: Rgb, next: Rgb): (Rgb, Rgb)
  {
    var primary := Transformation.Brighten(darkest, 1.0 - DarkBgDarkenAmount);
    (primary, DarkSecondary(pc, primary, next))
  }

  /** The dark theme's secondary background from the primary and the
      second-darkest entry. */
  function DarkSecondary(pc: Gamma.PowerCurves, primary: Rgb, candidate: Rgb): Rgb
  {
    var lumaDiff := Luma(pc, candidate) - Luma(pc, primary);
    var hueDiff := Abs(ToHsv(candidate).h - ToHsv(primary).h) * 360.0;
    if lumaDiff < 4.0 then Transformation.Brighten(candidate, 1.4)
    else if lumaDiff > 10.0 && hueDiff > 20.0 then Transformation.Brighten(primary, 1.6)
    else candidate
  }

  /** A secondary too close in luma to the primary is brightened; one far
      off in luma and hue is replaced by the brightened primary; anything
      in between is kept. */
  lemma DarkSecondaryShape(pc: Gamma.PowerCurves, primary: Rgb, candidate: Rgb)
    ensures var secondary := DarkSecondary(pc, primary, candidate);
      var lumaDiff := Luma(pc, candidate) - Luma(pc, primary);
      && (lumaDiff < 4.0 ==> MaxChannel(candidate) <= MaxChannel(secondary))
      && (lumaDiff >= 4.0 ==> secondary == candidate || MaxChannel(primary) <= MaxChannel(secondary))
      && (4.0 <= lumaDiff <= 10.0 ==> secondary == candidate)
  {
    Transformation.BrightenMonotone(candidate, 1.4);
    Transformation.BrightenMonotone(primary, 1.6);
  }

  /** Dark theme: the primary is the darkest entry darkened, so its largest
      channel does not grow. */
  lemma DarkBackgrounds(pc: Gamma.PowerCurves, darkest: Rgb, next: Rgb)
    ensures MaxChannel(DarkBg(pc, darkest, next).0) <= MaxChannel(darkest)
  {
    Transformation.BrightenMonotone(darkest, 0.7);
  }

  /** Light theme: the primary comes from the entry with the largest
      coverage among the first three (the first such on a tie), and the
      secondary lies between the primary and the neutral white. */
  lemma LightBackgrounds(pc: Gamma.PowerCurves, colors: seq<ColorData>)
    requires Gamma.Faithful(pc) && |colors| >= 1
    ensures var (primary, secondary) := AssignBg(pc, colors, Light);
      && ChannelsBetween(secondary, primary, NeutralWhite)
      && exists i :: (0 <= i < MinInt(3, |colors|)
          && (forall j :: 0 <= j < MinInt(3, |colors|) ==> colors[j].coverage <= colors[i].coverage)
          && (forall j :: 0 <= j < i ==> colors[j].coverage < colors[i].coverage)
          && primary == LightPrimary(pc, colors[i].rgb))
  {
    var top := colors[..MinInt(3, |colors|)];
    var i := Select.ArgMax(top, Coverage);
    var primary := LightPrimary(pc, top[i].rgb);
    assert AssignBg(pc, colors, Light) == (primary, Mixed(pc, primary, NeutralWhite, 0.4));
    MostCovered(colors, i);
  }

  /** The `max` over the first three entries, stated on the entries. */
  lemma MostCovered(colors: seq<ColorData>, i: nat)
    requires |colors| >= 1
    requires i == Select.ArgMax(colors[..MinInt(3, |colors|)], Coverage)
    ensures 0 <= i < MinInt(3, |colors|)
    ensures forall j :: 0 <= j < MinInt(3, |colors|) ==> colors[j].coverage <= colors[i].coverage
    ensures forall j :: 0 <= j < i ==> colors[j].coverage < colors[i].coverage
  {
    var top := colors[..MinInt(3, |colors|)];
    assert forall j :: 0 <= j < |top| ==> top[j] == colors[j] && Coverage(top[j]) == colors[j].coverage;
  }

  // ---- Foregrounds ----------------------------------------------------

  /** At least 20% coverage makes a colour prominent. */
  predicate Prominent(c: ColorData)
  {
    c.coverage > FgCoverageThreshold
  }

  function Saturation(c: ColorData): real
  {
    ToHsv(c.rgb).s
  }

  /** The foreground candidate of `_assign_fg`: dark themes take the first
      prominent entry of the brighter half, else the least saturated of the
      top three; light themes scan the darker half from the darkest end,
      else take the darkest entry. */
  function FgCandidate(colors: seq<ColorData>, theme: Theme): Rgb
    requires |colors| >= 1
  {
    var n := |colors|;
    match theme
    case Dark =>
      (match Select.FirstWhere(colors[..n / 2], Prominent)
       case Some(i) => colors[i].rgb
       case None =>
         var top := colors[..MinInt(3, n)];
         top[Select.ArgMin(top, Saturation)].rgb)
    case Light =>
      var darker := Select.Reverse(colors[n / 2..]);
      (match Select.FirstWhere(darker, Prominent)
       case Some(i) => darker[i].rgb
       case None => colors[n - 1].rgb)
  }

  /** Dark theme: the candidate is the first prominent entry of the
      brighter half or, when that half has none, the least saturated of the
      top three (the first such on a tie). */
  lemma DarkFgCandidate(colors: seq<ColorData>)
    requires |colors| >= 1
    ensures var n := |colors|;
      exists i :: 0 <= i < n && colors[i].rgb == FgCandidate(colors, Dark)
        && (|| (i < n / 2 && Prominent(colors[i]) && forall j :: 0 <= j < i ==> !Prominent(colors[j]))
            || (&& i < MinInt(3, n)
                && (forall j :: 0 <= j < n / 2 ==> !Prominent(colors[j]))
                && (forall j :: 0 <= j < MinInt(3, n) ==> Saturation(colors[i]) <= Saturation(colors[j]))))
  {
    var n := |colors|;
    var c := FgCandidate(colors, Dark);
    var half := colors[..n / 2];
    assert forall j :: 0 <= j < n / 2 ==> half[j] == colors[j];
    match Select.FirstWhere(half, Prominent)
    case Some(i) =>
      assert colors[i].rgb == c;
    case None =>
      var top := colors[..MinInt(3, n)];
      var i := Select.ArgMin(top, Saturation);
      assert forall j :: 0 <= j < MinInt(3, n) ==> top[j] == colors[j];
      assert colors[i].rgb == c;
  }

  /** Light theme: the candidate is the darkest prominent entry of the
      darker half or, when that half has none, the darkest entry. */
  lemma LightFgCandidate(colors: seq<ColorData>)
    requires |colors| >= 1
    ensures var n := |colors|;
      exists i :: 0 <= i < n && colors[i].rgb == FgCandidate(colors, Light)
        && (|| (n / 2 <= i && Prominent(colors[i]) && forall j :: i < j < n ==> !Prominent(colors[j]))
            || (i == n - 1 && forall j :: n / 2 <= j < n ==> !Prominent(colors[j])))
  {
    var n := |colors|;
    var c := FgCandidate(colors, Light);
    var lower := colors[n / 2..];
    var darker := Select.Reverse(lower);
    assert forall k :: 0 <= k < |lower| ==> darker[k] == colors[n - 1 - k];
    match Select.FirstWhere(darker, Prominent)
    case Some(k) =>
      var i := n - 1 - k;
      assert colors[i].rgb == c;
      forall j | i < j < n
        ensures !Prominent(colors[j])
      {
        assert darker[n - 1 - j] == colors[j];
      }
    case None =>
      forall j | n / 2 <= j < n
        ensures !Prominent(colors[j])
      {
        assert darker[n - 1 - j] == colors[j];
      }
      assert colors[n - 1].rgb == c;
  }

  /** The anchor text moves toward in each theme. */
  function TextAnchor(theme: Theme): Rgb
  {
    if theme.Dark? then NeutralWhite else NeutralBlack
  }

  /** Primary foreground: the candidate when its contrast with the primary
      background reaches 6, else the solver's blend toward the anchor, else
      the anchor blended 0.2 toward the background; then a saturation cap of
      0.3 (a 0.3 blend toward the anchor) and, in the dark theme, a 0.3
      blend toward white when the luma is under 90. */
  function PrimaryFg(pc: Gamma.PowerCurves, candidate: Rgb, bgPrimary: Rgb, theme: Theme): (p: Rgb)
    requires Gamma.Faithful(pc)
    ensures Contrast(pc, candidate, bgPrimary) >= MinContrastPrimary
      && ToHsv(candidate).s <= MaxSaturationFgPrimary
      && (theme.Dark? ==> Luma(pc, candidate) >= DarkFgLumaThreshold)
      ==> p == candidate
    ensures Contrast(pc, candidate, bgPrimary) < MinContrastPrimary
      && Solve(pc, candidate, TextAnchor(theme), bgPrimary, MinContrastPrimary) <= 0.0
      ==> ChannelsBetween(p, TextAnchor(theme), bgPrimary)
  {
    var anchor := TextAnchor(theme);
    var fallback := Mixed(pc, anchor, bgPrimary, 0.2);
    var kept := KeepOrSolve(pc, candidate, anchor, bgPrimary, MinContrastPrimary, fallback);
    var calmer := if ToHsv(kept).s > MaxSaturationFgPrimary then Mixed(pc, kept, anchor, 0.3) else kept;
    MixedStaysBetween(pc, kept, anchor, bgPrimary, 0.3);
    match theme
    case Dark =>
      MixedStaysBetween(pc, calmer, anchor, bgPrimary, 0.3);
      if Luma(pc, calmer) < DarkFgLumaThreshold then Mixed(pc, calmer, anchor, 0.3) else calmer
    case Light =>
      calmer
  }

  /** Blending a colour that lies between an anchor and another colour
      toward the anchor keeps it between the two. */
  lemma MixedStaysBetween(pc: Gamma.PowerCurves, c: Rgb, anchor: Rgb, other: Rgb, amount: real)
    requires Gamma.Faithful(pc) && 0.0 <= amount <= 1.0
    ensures ChannelsBetween(c, anchor, other) ==> ChannelsBetween(Mixed(pc, c, anchor, amount), anchor, other)
  {
  }

  lemma BetweenSwap(c: Rgb, a: Rgb, b: Rgb)
    requires ChannelsBetween(c, a, b)
    ensures ChannelsBetween(c, b, a)
  {
  }

  /** Secondary foreground: the unadjusted candidate when its contrast with
      the secondary background reaches 4.5, else the solver's blend toward
      the anchor, else a 0.5 blend toward it. */
  function SecondaryFg(pc: Gamma.PowerCurves, candidate: Rgb, bgSecondary: Rgb, theme: Theme): (s: Rgb)
    requires Gamma.Faithful(pc)
    ensures Contrast(pc, candidate, bgSecondary) >= SecondaryContrastTarget ==> s == candidate
    ensures ChannelsBetween(s, candidate, TextAnchor(theme))
  {
    var anchor := TextAnchor(theme);
    KeepOrSolve(pc, candidate, anchor, bgSecondary, SecondaryContrastTarget, Mixed(pc, candidate, anchor, 0.5))
  }

  /** Tertiary text goes dark on a light elevated surface (HSV V above
      0.65) and light otherwise. */
  function TertiaryAnchor(bgTertiary: Rgb): Rgb
  {
    if ToHsv(bgTertiary).v > 0.65 then NeutralBlack else NeutralWhite
  }

  /** V is the largest channel over 255, so the anchor is black exactly
      when some channel of the surface reaches 166. */
  lemma TertiaryAnchorByChannel(bgTertiary: Rgb)
    ensures TertiaryAnchor(bgTertiary) == NeutralBlack <==> MaxChannel(bgTertiary) >= 166
    ensures TertiaryAnchor(bgTertiary) == NeutralWhite <==> MaxChannel(bgTertiary) <= 165
  {
    Transformation.HsvExtremesOfColour(bgTertiary);
  }

  /** The retry when the solver gives nothing for the tertiary text: a 0.6
      blend, and if that still misses 5, the solver at target 4, else a 0.8
      blend. */
  function TertiaryRetry(pc: Gamma.PowerCurves, bgPrimary: Rgb, bgTertiary: Rgb, anchor: Rgb): (t: Rgb)
    requires Gamma.Faithful(pc)
    ensures ChannelsBetween(t, bgPrimary, anchor)
  {
    var first := Mixed(pc, bgPrimary, anchor, 0.6);
    if Contrast(pc, first, bgTertiary) < TertiaryContrastTarget then
      var ratio := Solve(pc, bgPrimary, anchor, bgTertiary, TertiaryContrastTarget - 1.0);
      if ratio > 0.0 then Mixed(pc, bgPrimary, anchor, ratio) else Mixed(pc, bgPrimary, anchor, 0.8)
    else first
  }

  /** Tertiary foreground: the primary background itself when its contrast
      with the tertiary surface reaches 5, else a blend of it toward the
      anchor; the light theme then blends a tertiary with saturation above
      0.2 0.9 toward the anchor. Every outcome lies between the primary
      background and the anchor. */
  function TertiaryFg(pc: Gamma.PowerCurves, bgPrimary: Rgb, bgTertiary: Rgb, theme: Theme): (t: Rgb)
    requires Gamma.Faithful(pc)
    ensures ChannelsBetween(t, bgPrimary, TertiaryAnchor(bgTertiary))
    ensures Contrast(pc, bgPrimary, bgTertiary) >= TertiaryContrastTarget
      && (theme.Dark? || ToHsv(bgPrimary).s <= LightMaxSaturationFgTertiary)
      ==> t == bgPrimary
  {
    var anchor := TertiaryAnchor(bgTertiary);
    var t := KeepOrSolve(pc, bgPrimary, anchor, bgTertiary, TertiaryContrastTarget,
                         TertiaryRetry(pc, bgPrimary, bgTertiary, anchor));
    if theme.Light? && ToHsv(t).s > LightMaxSaturationFgTertiary then
      var u := Mixed(pc, t, anchor, 0.9);
      BetweenToward(t, u, bgPrimary, anchor);
      u
    else t
  }

  /** `_assign_fg`: primary, secondary and tertiary text colours. */
  function AssignFg(pc: Gamma.PowerCurves, colors: seq<ColorData>, bgPrimary: Rgb, bgSecondary: Rgb,
                    bgTertiary: Rgb, theme: Theme): (res: (Rgb, Rgb, Rgb))
    requires Gamma.Faithful(pc) && |colors| >= 1
    ensures ChannelsBetween(res.1, FgCandidate(colors, theme), TextAnchor(theme))
    ensures ChannelsBetween(res.2, bgPrimary, TertiaryAnchor(bgTertiary))
  {
    var candidate := FgCandidate(colors, theme);
    (PrimaryFg(pc, candidate, bgPrimary, theme),
     SecondaryFg(pc, candidate, bgSecondary, theme),
     TertiaryFg(pc, bgPrimary, bgTertiary, theme))
  }

  // ---- Accents --------------------------------------------------------

  /** Circular distance between two hues in degrees, `min(d, 360 - d)`. */
  function HueDistance(h1: real, h2: real): (d: real)
    ensures d <= 180.0
    ensures Abs(h1 - h2) <= 360.0 ==> 0.0 <= d
  {
    var diff := Abs(h1 - h2);
    Min(diff, 360.0 - diff)
  }

  /** The distance does not depend on the order, vanishes on equal hues,
      and for hues in [0, 360) stays within [0, 180]. */
  lemma HueDistanceShape(h1: real, h2: real)
    ensures HueDistance(h1, h2) == HueDistance(h2, h1)
    ensures HueDistance(h1, h1) == 0.0
    ensures 0.0 <= h1 < 360.0 && 0.0 <= h2 < 360.0 ==> 0.0 <= HueDistance(h1, h2) <= 180.0
  {
  }

  /** The hue bonus: a penalty near the dominant hue, the full bonus for
      40..100 degrees away, ramps on either side of that band, and a small
      bonus beyond 120 degrees. */
  function HueBonus(d: real): (b: real)
    ensures -0.1 <= b <= 0.1
    ensures b < 0.0 <==> d < 15.0
    ensures b == 0.1 <==> 40.0 <= d <= 100.0
  {
    if d < 15.0 then -0.10
    else if 40.0 <= d <= 100.0 then 0.10
    else if 20.0 <= d < 40.0 then 0.05 * ((d - 20.0) / 20.0)
    else if 100.0 < d <= 120.0 then 0.10 * (1.0 - (d - 100.0) / 20.0)
    else 0.03
  }

  /** `S * V`, plus 0.1 when S is at least 0.4, plus the hue bonus for the
      HSL hue's distance from the dominant hue. */
  function Score(c: Rgb, dominantHue: real): (score: real)
    ensures -0.1 <= score <= 1.2
  {
    CylinderRanges(c);
    var x := ToHsv(c);
    MulFraction(x.s, x.v);
    var saturationBonus := if x.s >= 0.4 then 0.1 else 0.0;
    Mul(x.s, x.v) + saturationBonus + HueBonus(HueDistance(ToHsl(c).h * 360.0, dominantHue))
  }

  /** Value at least `minValue` and luma within 30..130. */
  predicate InBand(pc: Gamma.PowerCurves, c: ColorData, minValue: real)
  {
    ToHsv(c.rgb).v >= minValue && 30.0 <= Luma(pc, c.rgb) <= 130.0
  }

  /** The candidates: those in the band with value 0.56, else those in the
      band with value 0.50, else every entry. */
  function Candidates(pc: Gamma.PowerCurves, colors: seq<ColorData>): (cands: seq<ColorData>)
    requires |colors| > 0
    ensures |cands| > 0
    ensures forall i :: 0 <= i < |cands| ==> cands[i] in colors
    ensures (exists i :: 0 <= i < |colors| && InBand(pc, colors[i], 0.56))
      ==> forall i :: 0 <= i < |cands| ==> InBand(pc, cands[i], 0.56)
    ensures (exists i :: 0 <= i < |colors| && InBand(pc, colors[i], 0.50))
      ==> forall i :: 0 <= i < |cands| ==> InBand(pc, cands[i], 0.50)
  {
    var strict := Select.Filter(colors, (c: ColorData) => InBand(pc, c, 0.56));
    var relaxed := Select.Filter(colors, (c: ColorData) => InBand(pc, c, 0.50));
    if |strict| > 0 then strict
    else if |relaxed| > 0 then relaxed
    else colors
  }

  /** The post-processing of the chosen colour: saturation under 0.25 is
      scaled by 1.5, above 0.85 by 0.9. */
  function Vivid(c: Rgb): (v: Rgb)
    ensures MaxChannel(v) == MaxChannel(c)
    ensures c.r == c.g == c.b ==> v == c
  {
    var s := ToHsv(c).s;
    Transformation.SaturateKeepsMax(c, 1.5);
    Transformation.SaturateKeepsMax(c, 0.9);
    Transformation.SaturateIdentity(c, 1.5);
    if s < 0.25 then Transformation.Saturate(c, 1.5)
    else if s > 0.85 then Transformation.Saturate(c, 0.9)
    else c
  }

  /** The HSL hue in degrees of the entry with the largest coverage (the
      first such). */
  function DominantHue(colors: seq<ColorData>): real
    requires |colors| > 0
  {
    ToHsl(colors[Select.ArgMax(colors, Coverage)].rgb).h * 360.0
  }

  /** `_select_vibrant_color`: the candidate with the highest score (the
      first on a tie), with its post-processed colour. */
  function SelectVibrant(pc: Gamma.PowerCurves, colors: seq<ColorData>): (res: (ColorData, Rgb))
    requires |colors| > 0
    ensures res.0 in colors
    ensures MaxChannel(res.1) == MaxChannel(res.0.rgb)
  {
    var hue := DominantHue(colors);
    var cands := Candidates(pc, colors);
    var best := cands[Select.ArgMax(cands, (c: ColorData) => Score(c.rgb, hue))];
    (best, Vivid(best.rgb))
  }

  /** The chosen entry is a candidate whose score no candidate beats and
      that no earlier candidate ties. */
  lemma VibrantIsBest(pc: Gamma.PowerCurves, colors: seq<ColorData>)
    requires |colors| > 0
    ensures var hue := DominantHue(colors);
      var cands := Candidates(pc, colors);
      var best := SelectVibrant(pc, colors).0;
      exists i :: 0 <= i < |cands| && cands[i] == best
        && (forall j :: 0 <= j < |cands| ==> Score(cands[j].rgb, hue) <= Score(best.rgb, hue))
        && (forall j :: 0 <= j < i ==> Score(cands[j].rgb, hue) < Score(best.rgb, hue))
  {
    var hue := DominantHue(colors);
    var cands := Candidates(pc, colors);
    var i := Select.ArgMax(cands, (c: ColorData) => Score(c.rgb, hue));
    assert cands[i] == SelectVibrant(pc, colors).0;
  }

  /** `_assign_accents`: the most vibrant entry, then the most vibrant of
      the entries not equal to it, or when none is left the first accent
      brightened by 1.2 (dark) or 0.9 (light). */
  function AssignAccents(pc: Gamma.PowerCurves, colors: seq<ColorData>, theme: Theme): (res: (Rgb, Rgb))
    requires |colors| > 0
    ensures res.0 == SelectVibrant(pc, colors).1
  {
    var (chosen, primary) := SelectVibrant(pc, colors);
    var rest := Select.Filter(colors, (c: ColorData) => c != chosen);
    if |rest| == 0 then (primary, Transformation.Brighten(primary, if theme.Dark? then 1.2 else 0.9))
    else (primary, SelectVibrant(pc, rest).1)
  }

  /** The secondary accent comes from an entry different from the one the
      primary came from; only when every entry equals that one is the
      primary brightened instead, upward in the dark theme and downward in
      the light one. */
  lemma AccentSources(pc: Gamma.PowerCurves, colors: seq<ColorData>, theme: Theme)
    requires |colors| > 0
    ensures var chosen := SelectVibrant(pc, colors).0;
      var (primary, secondary) := AssignAccents(pc, colors, theme);
      || (exists c :: c in colors && c != chosen && secondary == Vivid(c.rgb))
      || (&& (forall i :: 0 <= i < |colors| ==> colors[i] == chosen)
          && (theme.Dark? ==> MaxChannel(primary) <= MaxChannel(secondary))
          && (theme.Light? ==> MaxChannel(secondary) <= MaxChannel(primary)))
  {
    var (chosen, primary) := SelectVibrant(pc, colors);
    var rest := Select.Filter(colors, (c: ColorData) => c != chosen);
    if |rest| == 0 {
      Transformation.BrightenMonotone(primary, 1.2);
      Transformation.BrightenMonotone(primary, 0.9);
    } else {
      var next := SelectVibrant(pc, rest).0;
      assert AssignAccents(pc, colors, theme).1 == SelectVibrant(pc, rest).1 == Vivid(next.rgb);
      RestDiffers(colors, chosen, next);
    }
  }

  /** An entry of the filtered list is an entry other than the excluded one. */
  lemma RestDiffers(colors: seq<ColorData>, chosen: ColorData, next: ColorData)
    requires next in Select.Filter(colors, (c: ColorData) => c != chosen)
    ensures next in colors && next != chosen
  {
    var rest := Select.Filter(colors, (c: ColorData) => c != chosen);
    var k :| 0 <= k < |rest| && rest[k] == next;
  }

  /** `_assign_border`: the accent itself when active; inactive is the
      accent blended halfway to the background and then half desaturated. */
  function AssignBorder(pc: Gamma.PowerCurves, accent: Rgb, bgPrimary: Rgb): (res: (Rgb, Rgb))
    requires Gamma.Faithful(pc)
    ensures res.0 == accent
    ensures MaxChannel(res.1) <= MaxInt(MaxChannel(accent), MaxChannel(bgPrimary))
  {
    var mixed := Mixed(pc, accent, bgPrimary, 0.5);
    BetweenMaxChannel(mixed, accent, bgPrimary);
    Transformation.SaturateKeepsMax(mixed, 0.5);
    (accent, Transformation.Saturate(mixed, 0.5))
  }
}
