/** The stand-alone `luma` with a quality switch and its contrast ratio. */
module LumaQuality {
  import opened Wrappers
  import Gamma

  /** The Rec. 709 weights applied directly to the 0..255 channels. */
  function FastLuma(r: int, g: int, b: int): real
  {
    0.2126 * r as real + 0.7152 * g as real + 0.0722 * b as real
  }

  /** `luma(r, g, b, quality)`: "fast" weighs the raw channels, "high" the
      gamma-decoded ones, and any other quality raises ValueError. */
  function LumaOf(pc: Gamma.PowerCurves, r: int, g: int, b: int, quality: string): (res: Result<real>)
    ensures res.Err? <==> quality != "fast" && quality != "high"
    ensures res.Err? ==> res.fault.ValueError?
    ensures quality == "high" ==> res == Ok(Gamma.Luma(pc, r, g, b))
  {
    if quality == "fast" then Ok(FastLuma(r, g, b))
    else if quality == "high" then Ok(Gamma.Luma(pc, r, g, b))
    else Err(ValueError("Quality must be \"high\" or \"fast\""))
  }

  /** The fast luma is 0 for black, 255 for white, stays in [0, 255] for
      channels in 0..255 and never decreases when a channel grows. */
  lemma FastLumaShape(r: int, g: int, b: int, r': int, g': int, b': int)
    ensures FastLuma(0, 0, 0) == 0.0 && FastLuma(255, 255, 255) == 255.0
    ensures 0 <= r <= 255 && 0 <= g <= 255 && 0 <= b <= 255 ==> 0.0 <= FastLuma(r, g, b) <= 255.0
    ensures r <= r' && g <= g' && b <= b' ==> FastLuma(r, g, b) <= FastLuma(r', g', b')
  {
  }

  /** Both qualities agree at black and at white. */
  lemma QualitiesAgreeAtExtremes(pc: Gamma.PowerCurves)
    requires Gamma.Faithful(pc)
    ensures LumaOf(pc, 0, 0, 0, "fast") == LumaOf(pc, 0, 0, 0, "high") == Ok(0.0)
    ensures LumaOf(pc, 255, 255, 255, "fast") == LumaOf(pc, 255, 255, 255, "high") == Ok(255.0)
  {
    Gamma.LumaRange(pc, 0, 0, 0);
    Gamma.LumaRange(pc, 255, 255, 255);
  }
}
