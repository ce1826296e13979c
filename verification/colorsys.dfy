/** Python's `colorsys` conversions between RGB and the HSV / HLS cylinders,
    over exact reals. Every component is a fraction of a whole: channels,
    saturation, value and lightness in [0, 1], hue in turns. */
module ColorSys {
  import opened Numeric

  const OneThird: real := 1.0 / 3.0
  const OneSixth: real := 1.0 / 6.0
  const TwoThird: real := 2.0 / 3.0

  predicate Unit(x: real) { 0.0 <= x <= 1.0 }

  predicate UnitRgb(r: real, g: real, b: real) { Unit(r) && Unit(g) && Unit(b) }

  /** The hue both RGB conversions share: the channel holding the maximum
      picks the sextant, the other two place the hue inside it. */
  function Hue(r: real, g: real, b: real): (h: real)
    requires Min3(r, g, b) < Max3(r, g, b)
    ensures 0.0 <= h < 1.0
  {
    FMod(RawHue(r, g, b) / 6.0, 1.0)
  }

  /** The hue in sixths of a turn before reduction, in [-1, 5]. */
  function RawHue(r: real, g: real, b: real): (h: real)
    requires Min3(r, g, b) < Max3(r, g, b)
    ensures -1.0 <= h <= 5.0
  {
    var maxc := Max3(r, g, b);
    var rangec := maxc - Min3(r, g, b);
    var rc := (maxc - r) / rangec;
    var gc := (maxc - g) / rangec;
    var bc := (maxc - b) / rangec;
    RatioInUnit(maxc - r, rangec);
    RatioInUnit(maxc - g, rangec);
    RatioInUnit(maxc - b, rangec);
    if r == maxc then bc - gc
    else if g == maxc then 2.0 + rc - bc
    else 4.0 + gc - rc
  }

  /** Six times the reduced hue is the raw hue, moved into [0, 6). */
  lemma HueSixfold(r: real, g: real, b: real)
    requires Min3(r, g, b) < Max3(r, g, b)
    ensures RawHue(r, g, b) >= 0.0 ==> Hue(r, g, b) * 6.0 == RawHue(r, g, b)
    ensures RawHue(r, g, b) < 0.0 ==> Hue(r, g, b) * 6.0 == RawHue(r, g, b) + 6.0
  {
    var raw := RawHue(r, g, b);
    if raw < 0.0 {
      FModIn(raw / 6.0, 1.0, -1);
    }
  }

  /** `rgb_to_hsv` divides by the maximum only for a chromatic colour. */
  predicate HsvDefined(r: real, g: real, b: real)
  {
    Min3(r, g, b) == Max3(r, g, b) || Max3(r, g, b) != 0.0
  }

  function RgbToHsv(r: real, g: real, b: real): (hsv: (real, real, real))
    requires HsvDefined(r, g, b)
    ensures hsv.2 == Max3(r, g, b)
    ensures Min3(r, g, b) == Max3(r, g, b) ==> hsv.0 == 0.0 && hsv.1 == 0.0
    ensures UnitRgb(r, g, b) ==> 0.0 <= hsv.0 < 1.0 && Unit(hsv.1) && Unit(hsv.2)
    ensures UnitRgb(r, g, b) ==> (hsv.1 == 0.0 <==> r == g == b)
  {
    var maxc := Max3(r, g, b);
    var minc := Min3(r, g, b);
    if minc == maxc then (0.0, 0.0, maxc)
    else
      var s := (maxc - minc) / maxc;
      assert UnitRgb(r, g, b) ==> 0.0 < s <= 1.0 by {
        if UnitRgb(r, g, b) {
          assert 0.0 <= minc < maxc;
          RatioInUnit(maxc - minc, maxc);
        }
      }
      (Hue(r, g, b), s, maxc)
  }

  /** The channel order of sextant k of `hsv_to_rgb`: the maximum v, the
      minimum p, and a middle channel that falls (q, odd k) or rises
      (t, even k) across the sextant. */
  function Sextant(k: int, v: real, p: real, q: real, t: real): (real, real, real)
  {
    if k == 0 then (v, t, p)
    else if k == 1 then (q, v, p)
    else if k == 2 then (p, v, t)
    else if k == 3 then (p, q, v)
    else if k == 4 then (t, p, v)
    else (v, p, q)
  }

  /** `hsv_to_rgb` inside sextant k at offset f: the minimum `v * (1 - s)`,
      the falling channel `v * (1 - s * f)` and the rising `v * (1 - s * (1 - f))`. */
  function SextantAt(k: int, f: real, s: real, v: real): (real, real, real)
  {
    Sextant(k, v, Mul(v, 1.0 - s), Mul(v, 1.0 - Mul(s, f)), Mul(v, 1.0 - Mul(s, 1.0 - f)))
  }

  function HsvToRgb(h: real, s: real, v: real): (rgb: (real, real, real))
    ensures s == 0.0 ==> rgb == (v, v, v)
  {
    if s == 0.0 then (v, v, v)
    else SextantAt(Trunc(h * 6.0) % 6, h * 6.0 - Trunc(h * 6.0) as real, s, v)
  }

  /** For a non-negative hue and s, v in [0, 1], `hsv_to_rgb` spans exactly
      `v * (1 - s)` to `v`. */
  lemma HsvToRgbBounds(h: real, s: real, v: real)
    requires 0.0 <= h && Unit(s) && Unit(v)
    ensures var rgb := HsvToRgb(h, s, v);
      Max3(rgb.0, rgb.1, rgb.2) == v && Min3(rgb.0, rgb.1, rgb.2) == Mul(v, 1.0 - s)
  {
    if s == 0.0 {
      MulOne(v);
      assert Mul(v, 1.0 - s) == v;
    } else {
      var i := Trunc(h * 6.0);
      var f := h * 6.0 - i as real;
      SextantAtBounds(i % 6, f, s, v);
    }
  }

  /** Whatever the sextant, the channels span `v * (1 - s)` to v. */
  lemma SextantAtBounds(k: int, f: real, s: real, v: real)
    requires 0.0 <= f <= 1.0 && Unit(s) && Unit(v)
    ensures var rgb := SextantAt(k, f, s, v);
      Max3(rgb.0, rgb.1, rgb.2) == v && Min3(rgb.0, rgb.1, rgb.2) == Mul(v, 1.0 - s)
  {
    MiddleChannel(v, s, f);
    MiddleChannel(v, s, 1.0 - f);
    SextantSpan(k, v, Mul(v, 1.0 - s), Mul(v, 1.0 - Mul(s, f)), Mul(v, 1.0 - Mul(s, 1.0 - f)));
  }

  /** Every sextant lays out the maximum v, the minimum p and one middle
      channel between them. */
  lemma SextantSpan(k: int, v: real, p: real, q: real, t: real)
    requires p <= q <= v && p <= t <= v
    ensures var rgb := Sextant(k, v, p, q, t);
      Max3(rgb.0, rgb.1, rgb.2) == v && Min3(rgb.0, rgb.1, rgb.2) == p
  {
  }

  /** A channel `v * (1 - s * f)` lies between the minimum `v * (1 - s)` and v. */
  lemma MiddleChannel(v: real, s: real, f: real)
    requires Unit(v) && Unit(s) && 0.0 <= f <= 1.0
    ensures Mul(v, 1.0 - s) <= Mul(v, 1.0 - Mul(s, f)) <= v
  {
    MulFraction(s, f);
    MulMonotone(v, 1.0 - s, 1.0 - Mul(s, f));
    MulMonotone(v, 1.0 - Mul(s, f), 1.0);
    MulOne(v);
  }

  /** Neither conversion divides by zero on the unit cube. */
  lemma UnitDefined(r: real, g: real, b: real)
    requires UnitRgb(r, g, b)
    ensures HsvDefined(r, g, b) && HlsDefined(r, g, b)
  {
  }

  /** The value times the saturation is the chroma, max minus min. */
  lemma HsvChroma(r: real, g: real, b: real)
    requires UnitRgb(r, g, b)
    ensures HsvDefined(r, g, b)
    ensures var hsv := RgbToHsv(r, g, b); Mul(hsv.2, hsv.1) == Max3(r, g, b) - Min3(r, g, b)
  {
    var maxc, minc := Max3(r, g, b), Min3(r, g, b);
    if minc == maxc {
      MulZero(maxc);
    } else {
      MulDivCancel(maxc - minc, maxc);
    }
  }

  /** `rgb_to_hls` divides by the sum or by its complement to 2. */
  predicate HlsDefined(r: real, g: real, b: real)
  {
    var sumc := Max3(r, g, b) + Min3(r, g, b);
    Min3(r, g, b) == Max3(r, g, b) ||
    ((sumc / 2.0 <= 0.5 ==> sumc != 0.0) && (sumc / 2.0 > 0.5 ==> 2.0 - sumc != 0.0))
  }

  function RgbToHls(r: real, g: real, b: real): (hls: (real, real, real))
    requires HlsDefined(r, g, b)
    ensures hls.1 == (Max3(r, g, b) + Min3(r, g, b)) / 2.0
    ensures Min3(r, g, b) == Max3(r, g, b) ==> hls.0 == 0.0 && hls.2 == 0.0
    ensures Min3(r, g, b) < Max3(r, g, b) && HsvDefined(r, g, b) ==> hls.0 == RgbToHsv(r, g, b).0
    ensures UnitRgb(r, g, b) ==> 0.0 <= hls.0 < 1.0 && Unit(hls.1) && Unit(hls.2)
  {
    var maxc := Max3(r, g, b);
    var minc := Min3(r, g, b);
    var sumc := maxc + minc;
    var rangec := maxc - minc;
    var l := sumc / 2.0;
    if minc == maxc then (0.0, l, 0.0)
    else
      var s := if l <= 0.5 then rangec / sumc else rangec / (2.0 - maxc - minc);
      assert UnitRgb(r, g, b) ==> Unit(s) by {
        if UnitRgb(r, g, b) {
          assert 0.0 <= minc < maxc <= 1.0;
          if l <= 0.5 {
            RatioInUnit(rangec, sumc);
          } else {
            RatioInUnit(rangec, 2.0 - maxc - minc);
          }
        }
      }
      (Hue(r, g, b), l, s)
  }

  /** The `_v` helper: one channel of `hls_to_rgb`, between m1 and m2. */
  function HueChannel(m1: real, m2: real, hue: real): (c: real)
    ensures m1 <= m2 ==> m1 <= c <= m2
    ensures m2 <= m1 ==> m2 <= c <= m1
  {
    var h := FMod(hue, 1.0);
    assert 0.0 <= h < 1.0;
    if h < OneSixth then
      var w := h * 6.0;
      assert 0.0 <= w <= 1.0;
      LerpBetween(m1, m2, w);
      Lerp(m1, m2, w)
    else if h < 0.5 then m2
    else if h < TwoThird then
      var w := (TwoThird - h) * 6.0;
      assert 0.0 <= w <= 1.0;
      LerpBetween(m1, m2, w);
      Lerp(m1, m2, w)
    else m1
  }

  /** The two lightness bounds `m1 <= m2` of `hls_to_rgb`. */
  function HlsBounds(l: real, s: real): (real, real)
  {
    var m2 := if l <= 0.5 then Mul(l, 1.0 + s) else l + s - Mul(l, s);
    (2.0 * l - m2, m2)
  }

  /** For l and s in [0, 1], `0 <= m1 <= l <= m2 <= 1`. */
  lemma HlsBoundsOrder(l: real, s: real)
    requires Unit(l) && Unit(s)
    ensures var (m1, m2) := HlsBounds(l, s); 0.0 <= m1 <= l <= m2 <= 1.0
  {
    if l <= 0.5 {
      MulFraction(l, s);
      MulDistributes(l, 1.0, s);
      MulOne(l);
    } else {
      MulCommutes(l, s);
      MulFraction(s, l);
      MulFraction(1.0 - l, s);
      MulDistributes(s, 1.0, l);
      MulOne(s);
    }
  }

  function HlsToRgb(h: real, l: real, s: real): (rgb: (real, real, real))
    ensures s == 0.0 ==> rgb == (l, l, l)
  {
    if s == 0.0 then (l, l, l)
    else
      var (m1, m2) := HlsBounds(l, s);
      (HueChannel(m1, m2, h + OneThird), HueChannel(m1, m2, h), HueChannel(m1, m2, h - OneThird))
  }

  /** For l and s in [0, 1] every channel of `hls_to_rgb` is in [0, 1]. */
  lemma HlsToRgbUnit(h: real, l: real, s: real)
    requires Unit(l) && Unit(s)
    ensures var rgb := HlsToRgb(h, l, s); UnitRgb(rgb.0, rgb.1, rgb.2)
  {
    if s != 0.0 {
      HlsBoundsOrder(l, s);
    }
  }

  /** `hsv_to_rgb` undoes `rgb_to_hsv` exactly on the unit cube. */
  lemma HsvRoundTrip(r: real, g: real, b: real)
    requires UnitRgb(r, g, b)
    ensures HsvDefined(r, g, b)
    ensures var hsv := RgbToHsv(r, g, b); HsvToRgb(hsv.0, hsv.1, hsv.2) == (r, g, b)
  {
    var maxc := Max3(r, g, b);
    var minc := Min3(r, g, b);
    if minc < maxc {
      var rangec := maxc - minc;
      var s := rangec / maxc;
      MulDivCancel(rangec, maxc);
      assert RgbToHsv(r, g, b) == (Hue(r, g, b), s, maxc);
      if r == maxc {
        RedMax(r, g, b, s);
      } else if g == maxc {
        GreenMax(r, g, b, s);
      } else {
        BlueMax(r, g, b, s);
      }
    }
  }

  /** Once `h * 6 = k + f` is split into sextant k and offset f,
      `hsv_to_rgb` is that sextant's case. */
  lemma HsvToRgbAt(h: real, s: real, v: real, k: int, f: real)
    requires s != 0.0 && 0 <= k <= 5 && 0.0 <= f < 1.0
    requires h * 6.0 == k as real + f
    ensures HsvToRgb(h, s, v) == SextantAt(k, f, s, v)
  {
    TruncAt(h, k, f);
    assert Trunc(h * 6.0) % 6 == k;
    assert h * 6.0 - Trunc(h * 6.0) as real == f;
  }

  lemma TruncAt(h: real, k: int, f: real)
    requires 0 <= k && 0.0 <= f < 1.0 && h * 6.0 == k as real + f
    ensures Trunc(h * 6.0) == k
  {
    FloorUnique(h * 6.0, k);
  }

  /** The three `hsv_to_rgb` channels rewritten with `v * s` as the chroma c
      and e as the complement of f. */
  lemma SextantChroma(k: int, f: real, e: real, s: real, v: real, c: real)
    requires Mul(v, s) == c && e == 1.0 - f
    ensures SextantAt(k, f, s, v) == Sextant(k, v, v - c, v - Mul(c, f), v - Mul(c, e))
  {
    MulOne(v);
    MulDistributes(v, 1.0, s);
    MulDistributes(v, 1.0, Mul(s, f));
    MulDistributes(v, 1.0, Mul(s, e));
    MulAssociates(v, s, f);
    MulAssociates(v, s, e);
  }

  /** A channel x lies q chroma units below the maximum exactly when q is its
      scaled distance `(maxc - x) / c`. */
  lemma Recover(maxc: real, c: real, x: real, q: real)
    requires c != 0.0 && q == (maxc - x) / c
    ensures maxc - Mul(c, q) == x
  {
    MulDivCancel(maxc - x, c);
  }

  /** In sextant k the middle channel `mid` sits f chroma units below the
      maximum when k is odd and e = 1 - f units below when k is even;
      `hsv_to_rgb` then lays out maximum, middle and minimum. */
  lemma OnSextant(h: real, s: real, v: real, c: real, k: int, f: real, e: real, mid: real)
    requires 0 <= k <= 5 && 0.0 <= f < 1.0 && e == 1.0 - f && h * 6.0 == k as real + f
    requires 0.0 < c && Mul(v, s) == c
    requires if k % 2 == 1 then (v - mid) / c == f else (v - mid) / c == e
    ensures HsvToRgb(h, s, v) == Sextant(k, v, v - c, mid, mid)
  {
    HsvToRgbAt(h, s, v, k, f);
    SextantChroma(k, f, e, s, v, c);
    if k % 2 == 1 {
      Recover(v, c, mid, f);
      assert Sextant(k, v, v - c, v - Mul(c, f), v - Mul(c, e)) == Sextant(k, v, v - c, mid, mid);
    } else {
      Recover(v, c, mid, e);
      assert Sextant(k, v, v - c, v - Mul(c, f), v - Mul(c, e)) == Sextant(k, v, v - c, mid, mid);
    }
  }

  /** The distance of x below v, in units of c, is 1 exactly when x is
      c below v, and 0 exactly when x is v. */
  lemma RatioEnds(v: real, c: real, x: real)
    requires c != 0.0
    ensures (v - x) / c == 1.0 <==> x == v - c
    ensures (v - x) / c == 0.0 <==> x == v
  {
    var q := (v - x) / c;
    assert q * c == v - x;
  }

  lemma RedMax(r: real, g: real, b: real, s: real)
    requires UnitRgb(r, g, b) && Min3(r, g, b) < Max3(r, g, b) && r == Max3(r, g, b)
    requires Mul(r, s) == r - Min3(r, g, b)
    ensures HsvToRgb(Hue(r, g, b), s, r) == (r, g, b)
  {
    var c := r - Min3(r, g, b);
    var gc := (r - g) / c;
    var bc := (r - b) / c;
    assert RawHue(r, g, b) == bc - gc;
    HueSixfold(r, g, b);
    var h := Hue(r, g, b);
    if g >= b {
      assert b == r - c;
      RatioEnds(r, c, b);
      assert bc == 1.0;
      assert 0.0 <= gc <= 1.0 by { RatioInUnit(r - g, c); }
      if gc > 0.0 {
        OnSextant(h, s, r, c, 0, 1.0 - gc, gc, g);
      } else {
        assert g == r by { RatioEnds(r, c, g); }
        OnSextant(h, s, r, c, 1, 0.0, 1.0, r);
      }
    } else {
      assert g == r - c;
      RatioEnds(r, c, g);
      assert gc == 1.0;
      assert 0.0 <= bc < 1.0 by { RatioInUnit(r - b, c); }
      OnSextant(h, s, r, c, 5, bc, 1.0 - bc, b);
    }
  }

  lemma GreenMax(r: real, g: real, b: real, s: real)
    requires UnitRgb(r, g, b) && Min3(r, g, b) < Max3(r, g, b)
    requires r != Max3(r, g, b) && g == Max3(r, g, b)
    requires Mul(g, s) == g - Min3(r, g, b)
    ensures HsvToRgb(Hue(r, g, b), s, g) == (r, g, b)
  {
    var c := g - Min3(r, g, b);
    var rc := (g - r) / c;
    var bc := (g - b) / c;
    assert RawHue(r, g, b) == 2.0 + rc - bc;
    HueSixfold(r, g, b);
    var h := Hue(r, g, b);
    if b <= r {
      assert b == g - c;
      RatioEnds(g, c, b);
      assert bc == 1.0;
      assert 0.0 < rc <= 1.0 by { RatioInUnit(g - r, c); }
      if rc < 1.0 {
        OnSextant(h, s, g, c, 1, rc, 1.0 - rc, r);
      } else {
        assert r == g - c by { RatioEnds(g, c, r); }
        OnSextant(h, s, g, c, 2, 0.0, 1.0, g - c);
      }
    } else {
      assert r == g - c;
      RatioEnds(g, c, r);
      assert rc == 1.0;
      assert 0.0 <= bc < 1.0 by { RatioInUnit(g - b, c); }
      if bc > 0.0 {
        OnSextant(h, s, g, c, 2, 1.0 - bc, bc, b);
      } else {
        assert b == g by { RatioEnds(g, c, b); }
        OnSextant(h, s, g, c, 3, 0.0, 1.0, g);
      }
    }
  }

  lemma BlueMax(r: real, g: real, b: real, s: real)
    requires UnitRgb(r, g, b) && Min3(r, g, b) < Max3(r, g, b)
    requires r != Max3(r, g, b) && g != Max3(r, g, b) && b == Max3(r, g, b)
    requires Mul(b, s) == b - Min3(r, g, b)
    ensures HsvToRgb(Hue(r, g, b), s, b) == (r, g, b)
  {
    var c := b - Min3(r, g, b);
    var rc := (b - r) / c;
    var gc := (b - g) / c;
    assert RawHue(r, g, b) == 4.0 + gc - rc;
    HueSixfold(r, g, b);
    var h := Hue(r, g, b);
    if r <= g {
      assert r == b - c;
      RatioEnds(b, c, r);
      assert rc == 1.0;
      assert 0.0 < gc <= 1.0 by { RatioInUnit(b - g, c); }
      if gc < 1.0 {
        OnSextant(h, s, b, c, 3, gc, 1.0 - gc, g);
      } else {
        assert g == b - c by { RatioEnds(b, c, g); }
        OnSextant(h, s, b, c, 4, 0.0, 1.0, b - c);
      }
    } else {
      assert g == b - c;
      RatioEnds(b, c, g);
      assert gc == 1.0;
      assert 0.0 < rc < 1.0 by { RatioInUnit(b - r, c); }
      OnSextant(h, s, b, c, 4, 1.0 - rc, rc, r);
    }
  }
}
