/** The 4bit terminal scheme generator (after ciembor/4bit): six chromatic
    colours spaced 60 degrees apart on the hue wheel, each in a normal and a
    bright lightness, six greys, and an optional dye blended over a chosen
    group of the sixteen ANSI slots afterwards. */
module Ansi4Bit {
  import opened Wrappers
  import opened Numeric
  import opened Colors
  import AssignLogic

  // ---- Dye blending ---------------------------------------------------

  /** One channel of `_blend_dye`: `round(base + (dye - base) * alpha)`. */
  function DyeChannel(base: int, dye: int, alpha: real): int
  {
    RoundHalfEven(Lerp(base as real, dye as real, alpha))
  }

  /** `_blend_dye(base, dye, alpha)`; the RGB constructor rejects a channel
      pushed out of 0..255 by an alpha outside [0, 1]. */
  function BlendDye(base: Rgb, dye: Rgb, alpha: real): Result<Rgb>
  {
    MakeRgb(DyeChannel(base.r, dye.r, alpha), DyeChannel(base.g, dye.g, alpha), DyeChannel(base.b, dye.b, alpha))
  }

  /** Alpha 0 gives the base and alpha 1 the dye. */
  lemma BlendDyeEnds(base: Rgb, dye: Rgb)
    ensures BlendDye(base, dye, 0.0) == Ok(base)
    ensures BlendDye(base, dye, 1.0) == Ok(dye)
  {
    DyeChannelEnds(base.r, dye.r);
    DyeChannelEnds(base.g, dye.g);
    DyeChannelEnds(base.b, dye.b);
  }

  lemma DyeChannelEnds(base: int, dye: int)
    ensures DyeChannel(base, dye, 0.0) == base
    ensures DyeChannel(base, dye, 1.0) == dye
  {
    MulZero((dye - base) as real);
    MulOne((dye - base) as real);
    RoundOfInteger(base);
    RoundOfInteger(dye);
  }

  /** For alpha in [0, 1] the blend never raises and every channel lies
      between the base's and the dye's. */
  lemma BlendDyeBetween(base: Rgb, dye: Rgb, alpha: real)
    requires 0.0 <= alpha <= 1.0
    ensures BlendDye(base, dye, alpha).Ok?
    ensures AssignLogic.ChannelsBetween(BlendDye(base, dye, alpha).value, base, dye)
  {
    DyeChannelBetween(base.r, dye.r, alpha);
    DyeChannelBetween(base.g, dye.g, alpha);
    DyeChannelBetween(base.b, dye.b, alpha);
  }

  lemma DyeChannelBetween(base: int, dye: int, alpha: real)
    requires 0.0 <= alpha <= 1.0
    ensures AssignLogic.Between(DyeChannel(base, dye, alpha), base, dye)
  {
    LerpBetween(base as real, dye as real, alpha);
    RoundWithin(Lerp(base as real, dye as real, alpha), MinInt(base, dye), MaxInt(base, dye));
  }

  // ---- The raw scheme -------------------------------------------------

  /** The eighteen named colours of `ColorScheme.colors`. */
  datatype Slot =
    | Background | Foreground | Black | BrightBlack
    | Red | BrightRed | Green | BrightGreen | Yellow | BrightYellow
    | Blue | BrightBlue | Magenta | BrightMagenta | Cyan | BrightCyan
    | White | BrightWhite

  /** The constructor arguments of `ColorScheme`. */
  datatype Scheme = Scheme(
    hue: real, saturation: real, normalLightness: real, brightLightness: real,
    blackLightness: real, brightBlackLightness: real, whiteLightness: real,
    brightWhiteLightness: real, backgroundLightness: real, foregroundLightness: real)

  /** The keyword defaults of `ColorScheme` and `generate_color_scheme`. */
  const DefaultScheme: Scheme := Scheme(-15.0, 0.5, 0.5, 0.75, 0.0, 0.125, 0.875, 1.0, 0.0, 1.0)

  /** The wheel offsets `degrees` of `_initialize_colors`. */
  const Degrees: seq<real> := [0.0, 60.0, 120.0, 180.0, 240.0, 300.0]

  /** The twelve slots that get a hue; the other six are greys. */
  predicate Chromatic(s: Slot)
  {
    !(s.Background? || s.Foreground? || s.Black? || s.BrightBlack? || s.White? || s.BrightWhite?)
  }

  /** The bright partner of a normal slot (a bright slot is its own). */
  function BrightOf(s: Slot): Slot
  {
    match s
    case Black => BrightBlack
    case Red => BrightRed
    case Green => BrightGreen
    case Yellow => BrightYellow
    case Blue => BrightBlue
    case Magenta => BrightMagenta
    case Cyan => BrightCyan
    case White => BrightWhite
    case _ => s
  }

  /** The colour wheel by name: red at 0 degrees, yellow 60, green 120,
      cyan 180, blue 240, magenta 300. */
  function WheelAngle(s: Slot): real
  {
    if s.Red? || s.BrightRed? then 0.0
    else if s.Yellow? || s.BrightYellow? then 60.0
    else if s.Green? || s.BrightGreen? then 120.0
    else if s.Cyan? || s.BrightCyan? then 180.0
    else if s.Blue? || s.BrightBlue? then 240.0
    else if s.Magenta? || s.BrightMagenta? then 300.0
    else 0.0
  }

  /** `self.colors[name]` after `_initialize_colors`: the dict is only ever
      read by name, so it is modelled as a total map from slot to HSL. */
  function SlotColor(p: Scheme, s: Slot): Hsl
  {
    var hn := FMod(p.hue, 360.0) / 360.0;
    match s
    case Background => Hsl(0.0, 0.0, p.backgroundLightness)
    case Foreground => Hsl(0.0, 0.0, p.foregroundLightness)
    case Black => Hsl(0.0, 0.0, p.blackLightness)
    case BrightBlack => Hsl(0.0, 0.0, p.brightBlackLightness)
    case Red => Hsl(hn + Degrees[0] / 360.0, p.saturation, p.normalLightness)
    case BrightRed => Hsl(hn + Degrees[0] / 360.0, p.saturation, p.brightLightness)
    case Green => Hsl(hn + Degrees[2] / 360.0, p.saturation, p.normalLightness)
    case BrightGreen => Hsl(hn + Degrees[2] / 360.0, p.saturation, p.brightLightness)
    case Yellow => Hsl(hn + Degrees[1] / 360.0, p.saturation, p.normalLightness)
    case BrightYellow => Hsl(hn + Degrees[1] / 360.0, p.saturation, p.brightLightness)
    case Blue => Hsl(hn + Degrees[4] / 360.0, p.saturation, p.normalLightness)
    case BrightBlue => Hsl(hn + Degrees[4] / 360.0, p.saturation, p.brightLightness)
    case Magenta => Hsl(hn + Degrees[5] / 360.0, p.saturation, p.normalLightness)
    case BrightMagenta => Hsl(hn + Degrees[5] / 360.0, p.saturation, p.brightLightness)
    case Cyan => Hsl(hn + Degrees[3] / 360.0, p.saturation, p.normalLightness)
    case BrightCyan => Hsl(hn + Degrees[3] / 360.0, p.saturation, p.brightLightness)
    case White => Hsl(0.0, 0.0, p.whiteLightness)
    case BrightWhite => Hsl(0.0, 0.0, p.brightWhiteLightness)
  }

  /** A chromatic slot's hue is the scheme hue reduced into [0, 360), plus
      its wheel angle, as a fraction of a turn, at the scheme saturation;
      a grey has hue and saturation 0. */
  lemma SlotHues(p: Scheme, s: Slot)
    ensures Chromatic(s) ==> SlotColor(p, s).h == (FMod(p.hue, 360.0) + WheelAngle(s)) / 360.0
    ensures Chromatic(s) ==> SlotColor(p, s).s == p.saturation
    ensures !Chromatic(s) ==> SlotColor(p, s).h == 0.0 && SlotColor(p, s).s == 0.0
    ensures 0.0 <= SlotColor(p, s).h < 2.0
  {
  }

  /** A normal slot and its bright partner share hue and saturation; only
      the lightness differs, normal against bright. */
  lemma BrightPairs(p: Scheme, s: Slot)
    requires Chromatic(s) && BrightOf(s) != s
    ensures SlotColor(p, BrightOf(s)).h == SlotColor(p, s).h
    ensures SlotColor(p, BrightOf(s)).s == SlotColor(p, s).s
    ensures SlotColor(p, s).l == p.normalLightness
    ensures SlotColor(p, BrightOf(s)).l == p.brightLightness
  {
  }

  /** The standard ANSI order of `get_theme_as_rgb_objects`: entry i is
      `ansi-<i>`. */
  const AnsiOrder: seq<Slot> := [
    Black, Red, Green, Yellow, Blue, Magenta, Cyan, White,
    BrightBlack, BrightRed, BrightGreen, BrightYellow, BrightBlue, BrightMagenta, BrightCyan, BrightWhite]

  /** Slots 8..15 are the bright partners of slots 0..7; background and
      foreground are not among them. */
  lemma AnsiOrderShape()
    ensures |AnsiOrder| == 16
    ensures forall i :: 0 <= i < 8 ==> AnsiOrder[i + 8] == BrightOf(AnsiOrder[i]) != AnsiOrder[i]
    ensures forall i :: 0 <= i < 16 ==> !AnsiOrder[i].Background? && !AnsiOrder[i].Foreground?
    ensures forall i :: 0 <= i < 16 ==> (Chromatic(AnsiOrder[i]) <==> i % 8 != 0 && i % 8 != 7)
  {
  }

  /** `[colors[s].rgb for s in slots]`, raising at the first colour the RGB
      constructor rejects. */
  function RgbOfSlots(p: Scheme, slots: seq<Slot>): (res: Result<seq<Rgb>>)
    ensures res.Ok? <==> forall i :: 0 <= i < |slots| ==> HslToRgb(SlotColor(p, slots[i])).Ok?
    ensures res.Ok? ==> |res.value| == |slots|
    ensures res.Ok? ==> forall i :: 0 <= i < |slots| ==> HslToRgb(SlotColor(p, slots[i])) == Ok(res.value[i])
  {
    if |slots| == 0 then Ok([])
    else
      var init := slots[..|slots| - 1];
      assert forall i :: 0 <= i < |init| ==> init[i] == slots[i];
      var prefix :- RgbOfSlots(p, init);
      var last :- HslToRgb(SlotColor(p, slots[|slots| - 1]));
      Ok(prefix + [last])
  }

  /** `ColorScheme(...).get_theme_as_rgb_objects()`: the dict with keys
      `ansi-0` .. `ansi-15` in that order, as a sequence whose entry i is
      the value of `ansi-<i>`. */
  function ThemeAsRgb(p: Scheme): Result<seq<Rgb>>
  {
    RgbOfSlots(p, AnsiOrder)
  }

  /** The theme has exactly sixteen entries, entry i the colour of the i-th
      slot of the standard order; it raises only when some slot's HSL is
      outside the RGB range. */
  lemma ThemeLayout(p: Scheme)
    ensures ThemeAsRgb(p).Ok? ==> |ThemeAsRgb(p).value| == 16
    ensures ThemeAsRgb(p).Ok? ==> forall i :: 0 <= i < 16 ==> HslToRgb(SlotColor(p, AnsiOrder[i])) == Ok(ThemeAsRgb(p).value[i])
  {
    AnsiOrderShape();
  }

  /** Saturation and every lightness in [0, 1] (the defaults among them)
      build the theme without raising. */
  lemma ThemeAccepts(p: Scheme)
    requires 0.0 <= p.saturation <= 1.0
    requires 0.0 <= p.normalLightness <= 1.0 && 0.0 <= p.brightLightness <= 1.0
    requires 0.0 <= p.blackLightness <= 1.0 && 0.0 <= p.brightBlackLightness <= 1.0
    requires 0.0 <= p.whiteLightness <= 1.0 && 0.0 <= p.brightWhiteLightness <= 1.0
    ensures ThemeAsRgb(p).Ok?
  {
    AnsiOrderShape();
    forall i | 0 <= i < |AnsiOrder|
      ensures HslToRgb(SlotColor(p, AnsiOrder[i])).Ok?
    {
      SlotAccepts(p, AnsiOrder[i]);
    }
  }

  /** One slot: its lightness is one of the scheme's and its saturation
      the scheme's or 0. */
  lemma SlotAccepts(p: Scheme, s: Slot)
    requires 0.0 <= p.saturation <= 1.0
    requires 0.0 <= p.normalLightness <= 1.0 && 0.0 <= p.brightLightness <= 1.0
    requires 0.0 <= p.blackLightness <= 1.0 && 0.0 <= p.brightBlackLightness <= 1.0
    requires 0.0 <= p.whiteLightness <= 1.0 && 0.0 <= p.brightWhiteLightness <= 1.0
    requires !s.Background? && !s.Foreground?
    ensures HslToRgb(SlotColor(p, s)).Ok?
  {
    HslToRgbAccepts(SlotColor(p, s));
  }

  // ---- Dyeing ---------------------------------------------------------

  /** `achromatic_keys` and `color_keys` by slot index. */
  const AchromaticSlots: set<nat> := {0, 7, 8, 15}
  const ColorSlots: set<nat> := {1, 2, 3, 4, 5, 6, 9, 10, 11, 12, 13, 14}

  /** `keys_to_dye` for a dye type: "all", "color" or "achromatic"; any
      other type dyes nothing. */
  function DyeMask(kind: string): set<nat>
  {
    if kind == "all" then AchromaticSlots + ColorSlots
    else if kind == "color" then ColorSlots
    else if kind == "achromatic" then AchromaticSlots
    else {}
  }

  /** "color" dyes exactly the chromatic slots, "achromatic" exactly the
      four greys black, white, bright black and bright white, "all" all
      sixteen, and any other type none. */
  lemma DyeMaskSlots(kind: string, i: nat)
    requires i < 16
    ensures kind == "color" ==> (i in DyeMask(kind) <==> Chromatic(AnsiOrder[i]))
    ensures kind == "achromatic" ==> (i in DyeMask(kind) <==> !Chromatic(AnsiOrder[i]))
    ensures kind == "all" ==> i in DyeMask(kind)
    ensures kind != "all" && kind != "color" && kind != "achromatic" ==> i !in DyeMask(kind)
  {
    AnsiOrderShape();
  }

  /** The dye arguments of `generate_color_scheme`. */
  datatype Dye = Dye(h: real, s: real, l: real, a: real, kind: string)

  /** No dye: the keyword defaults. */
  const NoDye: Dye := Dye(0.0, 0.0, 0.0, 0.0, "none")

  /** The loop over `raw_theme.items()`: slots in the mask are blended with
      the dye, the rest copied; the first blend the RGB constructor rejects
      raises. */
  function DyeSlots(raw: seq<Rgb>, dye: Rgb, alpha: real, mask: set<nat>): (res: Result<seq<Rgb>>)
    ensures res.Ok? ==> |res.value| == |raw|
    ensures res.Ok? ==> forall i :: 0 <= i < |raw| && i in mask ==> BlendDye(raw[i], dye, alpha) == Ok(res.value[i])
    ensures res.Ok? ==> forall i :: 0 <= i < |raw| && i !in mask ==> res.value[i] == raw[i]
  {
    if |raw| == 0 then Ok([])
    else
      var n := |raw| - 1;
      var init := raw[..n];
      assert forall i :: 0 <= i < n ==> init[i] == raw[i];
      var prefix :- DyeSlots(init, dye, alpha, mask);
      var c :- if n in mask then BlendDye(raw[n], dye, alpha) else Ok(raw[n]);
      Ok(prefix + [c])
  }

  /** With alpha in [0, 1] dyeing never raises. */
  lemma {:induction false} DyeSlotsAccept(raw: seq<Rgb>, dye: Rgb, alpha: real, mask: set<nat>)
    requires 0.0 <= alpha <= 1.0
    ensures DyeSlots(raw, dye, alpha, mask).Ok?
  {
    if |raw| > 0 {
      DyeSlotsAccept(raw[..|raw| - 1], dye, alpha, mask);
      BlendDyeBetween(raw[|raw| - 1], dye, alpha);
    }
  }

  /** `generate_color_scheme(...)`: the raw theme, returned as is for dye
      type "none" or dye alpha 0, otherwise dyed with the colour of
      `HSL(dye_h / 360, dye_s, dye_l)` over the type's mask. */
  function GenerateColorScheme(p: Scheme, dye: Dye): Result<seq<Rgb>>
  {
    var raw :- ThemeAsRgb(p);
    if dye.kind == "none" || dye.a == 0.0 then Ok(raw)
    else
      var dyeColour :- HslToRgb(Hsl(dye.h / 360.0, dye.s, dye.l));
      DyeSlots(raw, dyeColour, dye.a, DyeMask(dye.kind))
  }

  /** Dye type "none" or alpha 0 return the raw theme unchanged. */
  lemma UndyedIsRaw(p: Scheme, dye: Dye)
    requires dye.kind == "none" || dye.a == 0.0
    ensures GenerateColorScheme(p, dye) == ThemeAsRgb(p)
  {
  }

  /** Otherwise the sixteen keys stay, the masked slots hold the blend of
      the raw colour with the dye colour and every other slot its raw
      colour. */
  lemma DyedLayout(p: Scheme, dye: Dye)
    requires dye.kind != "none" && dye.a != 0.0
    ensures var res := GenerateColorScheme(p, dye);
      res.Ok? ==>
        && ThemeAsRgb(p).Ok?
        && HslToRgb(Hsl(dye.h / 360.0, dye.s, dye.l)).Ok?
        && |res.value| == 16
        && forall i :: 0 <= i < 16 ==>
             var raw := ThemeAsRgb(p).value[i];
             if i in DyeMask(dye.kind)
             then BlendDye(raw, HslToRgb(Hsl(dye.h / 360.0, dye.s, dye.l)).value, dye.a) == Ok(res.value[i])
             else res.value[i] == raw
  {
    var res := GenerateColorScheme(p, dye);
    if res.Ok? {
      var raw := ThemeAsRgb(p).value;
      var dyeColour := HslToRgb(Hsl(dye.h / 360.0, dye.s, dye.l)).value;
      assert res == DyeSlots(raw, dyeColour, dye.a, DyeMask(dye.kind));
      assert |raw| == 16 by { assert |AnsiOrder| == 16; }
    }
  }

  /** With the scheme's ranges met, a dye colour in range and alpha in
      [0, 1], the scheme is always produced. */
  lemma GenerateAccepts(p: Scheme, dye: Dye)
    requires 0.0 <= p.saturation <= 1.0
    requires 0.0 <= p.normalLightness <= 1.0 && 0.0 <= p.brightLightness <= 1.0
    requires 0.0 <= p.blackLightness <= 1.0 && 0.0 <= p.brightBlackLightness <= 1.0
    requires 0.0 <= p.whiteLightness <= 1.0 && 0.0 <= p.brightWhiteLightness <= 1.0
    requires 0.0 <= dye.s <= 1.0 && 0.0 <= dye.l <= 1.0 && 0.0 <= dye.a <= 1.0
    ensures GenerateColorScheme(p, dye).Ok?
  {
    ThemeAccepts(p);
    HslToRgbAccepts(Hsl(dye.h / 360.0, dye.s, dye.l));
    var raw := ThemeAsRgb(p).value;
    var dyeColour := HslToRgb(Hsl(dye.h / 360.0, dye.s, dye.l)).value;
    DyeSlotsAccept(raw, dyeColour, dye.a, DyeMask(dye.kind));
  }
}
