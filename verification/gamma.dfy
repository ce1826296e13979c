/** Gamma-correct relative luminance and the contrast ratio of WCAG 2.1
    (section 6, "relative luminance" and "contrast ratio"), on the 0..255
    scale the program uses for luma. */
module Gamma {
  import opened Numeric

  /** The sRGB power curves `x ** 2.4` (decode) and `x ** (1 / 2.4)` (encode).
      Real exponentiation is not part of the model's arithmetic, so callers
      supply the two curves and `Faithful` states what is assumed of them. */
  datatype PowerCurves = PowerCurves(decode: real -> real, encode: real -> real)

  /** The break point of the linear segment in linear light. */
  const LinearKnee: real := 0.0031308

  /** The decoded input of channel 11, the smallest channel whose normalised
      value exceeds 0.04045 and so takes the power branch. */
  const Lowest11: real := (11.0 / 255.0 + 0.055) / 1.055

  /** Facts of the true power curves on [0, 1] the model relies on: both map
      [0, 1] into [0, 1] and are monotone, encode undoes decode, 1 is fixed,
      and two point values (0.0930... ** 2.4 is about 0.003347, above the
      knee; 0.0031308 ** (1 / 2.4) is about 0.09047). */
  ghost predicate Faithful(pc: PowerCurves)
  {
    && (forall x :: 0.0 <= x <= 1.0 ==> 0.0 <= pc.decode(x) <= 1.0)
    && (forall x :: 0.0 <= x <= 1.0 ==> 0.0 <= pc.encode(x) <= 1.0)
    && (forall x, y {:trigger Ordered(x, y)} :: 0.0 <= x && Ordered(x, y) && y <= 1.0 ==> pc.decode(x) <= pc.decode(y))
    && (forall x, y {:trigger Ordered(x, y)} :: 0.0 <= x && Ordered(x, y) && y <= 1.0 ==> pc.encode(x) <= pc.encode(y))
    && (forall x :: 0.0 <= x <= 1.0 ==> pc.encode(pc.decode(x)) == x)
    && pc.decode(1.0) == 1.0
    && pc.decode(Lowest11) > LinearKnee
    && pc.encode(LinearKnee) >= 0.09
  }

  /** `x <= y`, named so that the monotonicity of the curves is used only
      where a proof asks for it (through `CurvesMonotone`) rather than for
      every pair of curve values in sight. */
  predicate Ordered(x: real, y: real)
  {
    x <= y
  }

  lemma CurvesMonotone(pc: PowerCurves, x: real, y: real)
    requires Faithful(pc) && 0.0 <= x <= y <= 1.0
    ensures pc.decode(x) <= pc.decode(y)
    ensures pc.encode(x) <= pc.encode(y)
  {
    assert Ordered(x, y);
  }

  /** One 0..255 channel in linear light: the sRGB transfer function. */
  function ToLinear(pc: PowerCurves, c: int): real
  {
    var n := c as real / 255.0;
    if n <= 0.04045 then n / 12.92 else pc.decode((n + 0.055) / 1.055)
  }

  /** Linear light back to a 0..255 channel, rounded half to even. */
  function LinearToStandard(pc: PowerCurves, l: real): int
  {
    if l <= LinearKnee then RoundHalfEven(12.92 * l * 255.0)
    else RoundHalfEven(255.0 * (1.055 * pc.encode(l) - 0.055))
  }

  /** The power branch starts at channel 11; below it the segment is linear
      and stays under the knee. */
  lemma ChannelBranch(c: int)
    requires 0 <= c <= 255
    ensures c as real / 255.0 <= 0.04045 <==> c <= 10
    ensures c <= 10 ==> (c as real / 255.0) / 12.92 <= LinearKnee
    ensures c >= 11 ==> Lowest11 <= (c as real / 255.0 + 0.055) / 1.055 <= 1.0
  {
  }

  /** A channel in 0..255 is in [0, 1] in linear light, with black at 0 and
      white at 1. */
  lemma ToLinearRange(pc: PowerCurves, c: int)
    requires Faithful(pc) && 0 <= c <= 255
    ensures 0.0 <= ToLinear(pc, c) <= 1.0
    ensures c == 0 ==> ToLinear(pc, c) == 0.0
    ensures c == 255 ==> ToLinear(pc, c) == 1.0
    ensures c >= 11 ==> ToLinear(pc, c) > LinearKnee
    ensures c <= 10 ==> ToLinear(pc, c) <= LinearKnee
  {
    ChannelBranch(c);
    if c >= 11 {
      var x := (c as real / 255.0 + 0.055) / 1.055;
      CurvesMonotone(pc, Lowest11, x);
    }
  }

  /** The transfer function is monotone in the channel. */
  lemma ToLinearMonotone(pc: PowerCurves, c: int, d: int)
    requires Faithful(pc) && 0 <= c <= d <= 255
    ensures ToLinear(pc, c) <= ToLinear(pc, d)
  {
    ChannelBranch(c);
    ChannelBranch(d);
    ToLinearRange(pc, c);
    ToLinearRange(pc, d);
    if c >= 11 {
      var x := (c as real / 255.0 + 0.055) / 1.055;
      var y := (d as real / 255.0 + 0.055) / 1.055;
      CurvesMonotone(pc, x, y);
    }
  }

  /** Encoding undoes decoding on every channel: `linear_to_standard` of
      `to_linear(c)` is c again. */
  lemma StandardRoundTrip(pc: PowerCurves, c: int)
    requires Faithful(pc) && 0 <= c <= 255
    ensures LinearToStandard(pc, ToLinear(pc, c)) == c
  {
    ChannelBranch(c);
    ToLinearRange(pc, c);
    if c <= 10 {
      assert 12.92 * ((c as real / 255.0) / 12.92) * 255.0 == c as real;
    } else {
      var x := (c as real / 255.0 + 0.055) / 1.055;
      assert pc.encode(pc.decode(x)) == x;
      assert 255.0 * (1.055 * x - 0.055) == c as real;
    }
    RoundOfInteger(c);
  }

  /** Linear light in [0, 1] encodes to a channel in 0..255. */
  lemma LinearToStandardRange(pc: PowerCurves, l: real)
    requires Faithful(pc) && 0.0 <= l <= 1.0
    ensures 0 <= LinearToStandard(pc, l) <= 255
  {
    if l <= LinearKnee {
      RoundWithin(12.92 * l * 255.0, 0, 11);
    } else {
      CurvesMonotone(pc, LinearKnee, l);
      RoundWithin(255.0 * (1.055 * pc.encode(l) - 0.055), 0, 255);
    }
  }

  /** Encoding is monotone on [0, 1], across the knee as well. */
  lemma LinearToStandardMonotone(pc: PowerCurves, l: real, m: real)
    requires Faithful(pc) && 0.0 <= l <= m <= 1.0
    ensures LinearToStandard(pc, l) <= LinearToStandard(pc, m)
  {
    if m <= LinearKnee {
      RoundMonotone(12.92 * l * 255.0, 12.92 * m * 255.0);
    } else if l > LinearKnee {
      CurvesMonotone(pc, l, m);
      RoundMonotone(255.0 * (1.055 * l - 0.055), 255.0 * (1.055 * m - 0.055));
      RoundMonotone(255.0 * (1.055 * pc.encode(l) - 0.055), 255.0 * (1.055 * pc.encode(m) - 0.055));
    } else {
      CurvesMonotone(pc, LinearKnee, m);
      RoundAtMost(12.92 * l * 255.0, 10);
      RoundAtLeast(255.0 * (1.055 * pc.encode(m) - 0.055), 10);
    }
  }

  /** `0.2126 R + 0.7152 G + 0.0722 B` in linear light, scaled to 0..255. */
  function Luma(pc: PowerCurves, r: int, g: int, b: int): real
  {
    (0.2126 * ToLinear(pc, r) + 0.7152 * ToLinear(pc, g) + 0.0722 * ToLinear(pc, b)) * 255.0
  }

  /** Luma spans 0 (black) to 255 (white) and grows with every channel. */
  lemma LumaRange(pc: PowerCurves, r: int, g: int, b: int)
    requires Faithful(pc) && 0 <= r <= 255 && 0 <= g <= 255 && 0 <= b <= 255
    ensures 0.0 <= Luma(pc, r, g, b) <= 255.0
    ensures r == g == b == 0 ==> Luma(pc, r, g, b) == 0.0
    ensures r == g == b == 255 ==> Luma(pc, r, g, b) == 255.0
  {
    ToLinearRange(pc, r);
    ToLinearRange(pc, g);
    ToLinearRange(pc, b);
  }

  lemma LumaMonotone(pc: PowerCurves, r: int, g: int, b: int, r': int, g': int, b': int)
    requires Faithful(pc)
    requires 0 <= r <= r' <= 255 && 0 <= g <= g' <= 255 && 0 <= b <= b' <= 255
    ensures Luma(pc, r, g, b) <= Luma(pc, r', g', b')
  {
    ToLinearMonotone(pc, r, r');
    ToLinearMonotone(pc, g, g');
    ToLinearMonotone(pc, b, b');
  }

  /** Python raises ZeroDivisionError exactly when the darker luma is -12.75. */
  predicate ContrastDefined(l1: real, l2: real)
  {
    Min(l1, l2) / 255.0 + 0.05 != 0.0
  }

  /** `(L_lighter + 0.05) / (L_darker + 0.05)` with lumas normalised to [0, 1]. */
  function ContrastRatio(l1: real, l2: real): real
    requires ContrastDefined(l1, l2)
  {
    (Max(l1, l2) / 255.0 + 0.05) / (Min(l1, l2) / 255.0 + 0.05)
  }

  /** The ratio does not depend on the order of its arguments. */
  lemma ContrastSymmetric(l1: real, l2: real)
    requires ContrastDefined(l1, l2)
    ensures ContrastDefined(l2, l1)
    ensures ContrastRatio(l1, l2) == ContrastRatio(l2, l1)
  {
    assert Max(l1, l2) == Max(l2, l1) && Min(l1, l2) == Min(l2, l1);
  }

  /** A colour has contrast exactly 1 with itself. */
  lemma ContrastSelf(l: real)
    requires ContrastDefined(l, l)
    ensures ContrastRatio(l, l) == 1.0
  {
    QuotientOfSelf(l / 255.0 + 0.05);
  }

  /** For non-negative lumas the ratio is at least 1, and for lumas in
      0..255 at most 21. */
  lemma ContrastBounds(l1: real, l2: real)
    requires 0.0 <= l1 && 0.0 <= l2
    ensures ContrastDefined(l1, l2)
    ensures ContrastRatio(l1, l2) >= 1.0
    ensures l1 <= 255.0 && l2 <= 255.0 ==> ContrastRatio(l1, l2) <= 21.0
  {
    var hi := Max(l1, l2) / 255.0 + 0.05;
    var lo := Min(l1, l2) / 255.0 + 0.05;
    QuotientAtLeastOne(hi, lo);
    if l1 <= 255.0 && l2 <= 255.0 {
      QuotientAtMost(hi, lo, 1.05, 0.05);
    }
  }

  lemma QuotientOfSelf(x: real)
    requires x != 0.0
    ensures x / x == 1.0
  {
  }

  lemma QuotientAtLeastOne(x: real, y: real)
    requires 0.0 < y <= x
    ensures x / y >= 1.0
  {
  }

  /** x / y <= a / b when x <= a and y >= b > 0. */
  lemma QuotientAtMost(x: real, y: real, a: real, b: real)
    requires 0.0 <= x <= a && 0.0 < b <= y
    ensures x / y <= a / b
  {
    assert x / y <= a / y;
    assert a / y <= a / b;
  }
}
