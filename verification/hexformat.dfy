/** Upper-case hex serialisation: `rgba_to_hex` and the namedtuple helpers
    `rgb_to_hex6`, `rgba_to_hex6` and `rgba_to_hex8`. Channels are written
    as given; only the alpha byte is clamped. */
module HexFormat {
  import opened Wrappers
  import opened Numeric
  import Text

  /** `max(0, min(255, round(a * 255)))`. */
  function ClampedAlphaByte(a: real): (n: int)
    ensures 0 <= n <= 255
  {
    MaxInt(0, MinInt(255, RoundHalfEven(a * 255.0)))
  }

  /** The byte clamps at both ends and is exact in between. */
  lemma ClampedAlphaByteEnds(a: real)
    ensures a <= 0.0 ==> ClampedAlphaByte(a) == 0
    ensures a >= 1.0 ==> ClampedAlphaByte(a) == 255
    ensures 0.0 <= a <= 1.0 ==> ClampedAlphaByte(a) == RoundHalfEven(a * 255.0)
  {
    if a <= 0.0 {
      RoundMonotone(a * 255.0, 0.0);
      RoundOfInteger(0);
    } else if a >= 1.0 {
      RoundMonotone(255.0, a * 255.0);
      RoundOfInteger(255);
    } else {
      RoundWithin(a * 255.0, 0, 255);
    }
  }

  /** "#RRGGBB" in upper case. */
  function Hex6(r: int, g: int, b: int): string
  {
    "#" + Text.HexField(r, true) + Text.HexField(g, true) + Text.HexField(b, true)
  }

  /** `rgba_to_hex(r, g, b, a)`: six digits without an alpha, eight with. */
  function RgbaToHex(r: int, g: int, b: int, a: Option<real>): (s: string)
  {
    match a
    case None => Hex6(r, g, b)
    case Some(alpha) => Hex6(r, g, b) + Text.HexField(ClampedAlphaByte(alpha), true)
  }

  /** The eight-digit form extends the six-digit one by two digits holding
      the clamped alpha byte; for channels in 0..255 the six-digit form is
      seven characters that read back as the channels. */
  lemma RgbaToHexLayout(r: int, g: int, b: int, a: real)
    ensures var short, long := RgbaToHex(r, g, b, None), RgbaToHex(r, g, b, Some(a));
      && |long| == |short| + 2 && long[..|short|] == short
      && Text.HexValue(long[|short|..]) == ClampedAlphaByte(a)
    ensures 0 <= r <= 255 && 0 <= g <= 255 && 0 <= b <= 255 ==>
      var s := RgbaToHex(r, g, b, None);
      && |s| == 7 && s[0] == '#'
      && Text.HexValue(s[1..3]) == r && Text.HexValue(s[3..5]) == g && Text.HexValue(s[5..7]) == b
  {
    var short := Hex6(r, g, b);
    var long := RgbaToHex(r, g, b, Some(a));
    assert long[|short|..] == Text.HexField(ClampedAlphaByte(a), true);
    Text.HexFieldRoundTrip(ClampedAlphaByte(a), true);
    if 0 <= r <= 255 && 0 <= g <= 255 && 0 <= b <= 255 {
      assert short[1..3] == Text.HexField(r, true);
      assert short[3..5] == Text.HexField(g, true);
      assert short[5..7] == Text.HexField(b, true);
      Text.HexFieldRoundTrip(r, true);
      Text.HexFieldRoundTrip(g, true);
      Text.HexFieldRoundTrip(b, true);
    }
  }

  /** Full transparency ends in "00", full opacity in "FF". */
  lemma AlphaSuffixes(r: int, g: int, b: int)
    ensures RgbaToHex(r, g, b, Some(0.0)) == Hex6(r, g, b) + "00"
    ensures RgbaToHex(r, g, b, Some(1.0)) == Hex6(r, g, b) + "FF"
  {
    ClampedAlphaByteEnds(0.0);
    ClampedAlphaByteEnds(1.0);
    assert Text.HexDigits(255, true) == "FF";
  }

  /** The namedtuple RGB and RGBA: plain fields, no range check. */
  datatype RgbTuple = RgbTuple(r: int, g: int, b: int)
  datatype RgbaTuple = RgbaTuple(r: int, g: int, b: int, a: real)

  /** `rgb_to_hex6`. */
  function RgbToHex6(c: RgbTuple): string
  {
    Hex6(c.r, c.g, c.b)
  }

  /** `rgba_to_hex6`: the alpha is ignored. */
  function RgbaToHex6(c: RgbaTuple): string
  {
    Hex6(c.r, c.g, c.b)
  }

  /** `rgba_to_hex8`. */
  function RgbaToHex8(c: RgbaTuple): string
  {
    Hex6(c.r, c.g, c.b) + Text.HexField(ClampedAlphaByte(c.a), true)
  }

  /** The namedtuple helpers are `rgba_to_hex` without and with the alpha. */
  lemma TupleHexAgrees(c: RgbaTuple)
    ensures RgbaToHex6(c) == RgbToHex6(RgbTuple(c.r, c.g, c.b)) == RgbaToHex(c.r, c.g, c.b, None)
    ensures RgbaToHex8(c) == RgbaToHex(c.r, c.g, c.b, Some(c.a))
    ensures RgbaToHex8(c)[..|RgbaToHex6(c)|] == RgbaToHex6(c)
  {
    RgbaToHexLayout(c.r, c.g, c.b, c.a);
  }

  /** The documented examples: '#FF8000' and, at alpha 0.5, '#FF800080'. */
  lemma HexExamples()
    ensures RgbToHex6(RgbTuple(255, 128, 0)) == "#FF8000"
    ensures RgbaToHex8(RgbaTuple(255, 128, 0, 0.5)) == "#FF800080"
  {
    assert Text.HexDigits(255, true) == "FF";
    assert Text.HexDigits(128, true) == "80";
    ClampedAlphaByteEnds(0.5);
    assert RoundHalfEven(127.5) == 128 by {
      assert Floor(127.5) == 127;
    }
  }
}
