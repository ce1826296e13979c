/** `AnsiColors`: the Select Graphic Rendition sequences (section 8.3.117 of
    ECMA-48) the command line uses, 24-bit colour selection, `colorize`, and
    the line layouts of the theme preview. */
module TermColors {
  import opened Wrappers
  import opened Colors
  import Text

  /** A control sequence that sets graphic rendition: CSI, the parameters,
      then the final byte 'm'. */
  function Sgr(params: string): string
  {
    [Text.Esc, '['] + params + "m"
  }

  const Reset: string := Sgr("0")
  const Bold: string := Sgr("1")
  const Red: string := Sgr("91")
  const Green: string := Sgr("92")
  const Yellow: string := Sgr("93")
  const Blue: string := Sgr("94")
  const Magenta: string := Sgr("95")
  const Cyan: string := Sgr("96")
  const Gray: string := Sgr("90")

  /** The semantic aliases. */
  const Info: string := Blue
  const Warning: string := Yellow
  const Error: string := Red
  const Success: string := Green
  const Debug: string := Gray

  /** The parameters of a single SGR sequence, or None for anything else. */
  function DecodeSgr(s: string): (r: Option<string>)
    ensures r.Some? ==> s == Sgr(r.value) && 'm' !in r.value
  {
    if |s| >= 3 && s[0] == Text.Esc && s[1] == '[' && s[|s| - 1] == 'm' && 'm' !in s[2..|s| - 1]
    then Some(s[2..|s| - 1])
    else None
  }

  /** Parameters without the final byte read back from their sequence. */
  lemma SgrRoundTrip(params: string)
    requires 'm' !in params
    ensures DecodeSgr(Sgr(params)) == Some(params)
  {
    var s := Sgr(params);
    assert s[2..|s| - 1] == params;
  }

  /** The five semantic aliases are the bright blue, yellow, red and green
      and the grey foreground codes. */
  lemma Aliases()
    ensures DecodeSgr(Info) == Some("94")
    ensures DecodeSgr(Warning) == Some("93")
    ensures DecodeSgr(Error) == Some("91")
    ensures DecodeSgr(Success) == Some("92")
    ensures DecodeSgr(Debug) == Some("90")
  {
    SgrRoundTrip("94");
    SgrRoundTrip("93");
    SgrRoundTrip("91");
    SgrRoundTrip("92");
    SgrRoundTrip("90");
  }

  /** The parameters of a 24-bit colour selection: 38 for the foreground or
      48 for the background, 2 for direct RGB, then the three channels. */
  function TrueColorParams(layer: string, r: int, g: int, b: int): string
  {
    layer + ";2;" + Text.Decimal(r) + ";" + Text.Decimal(g) + ";" + Text.Decimal(b)
  }

  /** `rgb_to_ansi(r, g, b)`: select a 24-bit foreground colour. */
  function RgbToAnsi(r: int, g: int, b: int): string
  {
    Sgr(TrueColorParams("38", r, g, b))
  }

  /** `bg_rgb(r, g, b)`: select a 24-bit background colour. */
  function BgRgb(r: int, g: int, b: int): string
  {
    Sgr(TrueColorParams("48", r, g, b))
  }

  datatype Layer = Foreground | Background

  /** A decimal field written the way Python's `str` writes ints. */
  predicate CanonicalInt(f: string)
  {
    Text.Decimal(Text.ParseInt(f)) == f
  }

  /** Which colour a 24-bit selection sets, or None for anything else. */
  function DecodeTrueColor(s: string): Option<(Layer, int, int, int)>
  {
    match DecodeSgr(s)
    case None => None
    case Some(p) =>
      var f := Text.Split(p, ';');
      if |f| == 5 && (f[0] == "38" || f[0] == "48") && f[1] == "2"
         && CanonicalInt(f[2]) && CanonicalInt(f[3]) && CanonicalInt(f[4])
      then Some((if f[0] == "38" then Foreground else Background,
                 Text.ParseInt(f[2]), Text.ParseInt(f[3]), Text.ParseInt(f[4])))
      else None
  }

  /** A decimal holds neither ';' nor 'm'. */
  lemma DecimalPlain(n: int)
    ensures ';' !in Text.Decimal(n) && 'm' !in Text.Decimal(n)
  {
    Text.DecimalAlphabet(n);
  }

  /** Joining in front of at least one piece puts one separator after the
      first piece. */
  lemma JoinCons(x: string, rest: seq<string>, sep: char)
    requires |rest| >= 1
    ensures Text.Join([x] + rest, sep) == x + [sep] + Text.Join(rest, sep)
  {
    assert ([x] + rest)[1..] == rest;
  }

  /** Five pieces joined, written out. */
  lemma JoinFive(a: string, b: string, c: string, d: string, e: string, sep: char)
    ensures Text.Join([a, b, c, d, e], sep) == a + [sep] + b + [sep] + c + [sep] + d + [sep] + e
  {
    assert Text.Join([e], sep) == e;
    JoinCons(d, [e], sep);
    assert [d] + [e] == [d, e];
    JoinCons(c, [d, e], sep);
    assert [c] + [d, e] == [c, d, e];
    JoinCons(b, [c, d, e], sep);
    assert [b] + [c, d, e] == [b, c, d, e];
    JoinCons(a, [b, c, d, e], sep);
    assert [a] + [b, c, d, e] == [a, b, c, d, e];
  }

  /** The parameters hold no final byte. */
  lemma TrueColorClean(layer: string, r: int, g: int, b: int)
    requires layer == "38" || layer == "48"
    ensures 'm' !in TrueColorParams(layer, r, g, b)
  {
    DecimalPlain(r);
    DecimalPlain(g);
    DecimalPlain(b);
  }

  /** The parameters are the five fields joined by ';'. */
  lemma TrueColorFields(layer: string, r: int, g: int, b: int)
    requires layer == "38" || layer == "48"
    ensures Text.Split(TrueColorParams(layer, r, g, b), ';')
         == [layer, "2", Text.Decimal(r), Text.Decimal(g), Text.Decimal(b)]
  {
    var f := [layer, "2", Text.Decimal(r), Text.Decimal(g), Text.Decimal(b)];
    DecimalPlain(r);
    DecimalPlain(g);
    DecimalPlain(b);
    JoinFive(layer, "2", Text.Decimal(r), Text.Decimal(g), Text.Decimal(b), ';');
    assert Text.Join(f, ';') == TrueColorParams(layer, r, g, b);
    Text.SplitJoin(f, ';');
  }

  /** Parameters that split into a layer, 2 and three decimals decode as
      that colour. */
  lemma FieldsDecode(p: string, layer: string, r: int, g: int, b: int)
    requires layer == "38" || layer == "48"
    requires 'm' !in p
    requires Text.Split(p, ';') == [layer, "2", Text.Decimal(r), Text.Decimal(g), Text.Decimal(b)]
    ensures DecodeTrueColor(Sgr(p)) == Some((if layer == "38" then Foreground else Background, r, g, b))
  {
    SgrRoundTrip(p);
    var f := Text.Split(p, ';');
    assert CanonicalInt(f[2]) && Text.ParseInt(f[2]) == r by {
      Text.DecimalRoundTrip(r);
    }
    assert CanonicalInt(f[3]) && Text.ParseInt(f[3]) == g by {
      Text.DecimalRoundTrip(g);
    }
    assert CanonicalInt(f[4]) && Text.ParseInt(f[4]) == b by {
      Text.DecimalRoundTrip(b);
    }
  }

  /** A selection decodes as its layer and channels. */
  lemma TrueColorDecodes(layer: string, r: int, g: int, b: int)
    requires layer == "38" || layer == "48"
    ensures DecodeTrueColor(Sgr(TrueColorParams(layer, r, g, b)))
         == Some((if layer == "38" then Foreground else Background, r, g, b))
  {
    TrueColorFields(layer, r, g, b);
    TrueColorClean(layer, r, g, b);
    FieldsDecode(TrueColorParams(layer, r, g, b), layer, r, g, b);
  }

  /** Both selections read back as the layer and channels they were built
      from. */
  lemma TrueColorRoundTrip(r: int, g: int, b: int)
    ensures DecodeTrueColor(RgbToAnsi(r, g, b)) == Some((Foreground, r, g, b))
    ensures DecodeTrueColor(BgRgb(r, g, b)) == Some((Background, r, g, b))
  {
    TrueColorDecodes("38", r, g, b);
    TrueColorDecodes("48", r, g, b);
  }

  /** `colorize(text, color, bold)`. */
  function Colorize(text: string, color: string, bold: bool): string
  {
    (if bold then Bold else "") + color + text + Reset
  }

  /** What a terminal shows of s: an escape character starts an SGR
      sequence, which runs through the next 'm' and shows nothing. */
  function Visible(s: string): string
    decreases |s|
  {
    if |s| == 0 then ""
    else if s[0] == Text.Esc then Skip(s[1..])
    else [s[0]] + Visible(s[1..])
  }

  /** The rest of s after the current SGR sequence ends, as shown. */
  function Skip(s: string): string
    decreases |s|
  {
    if |s| == 0 then ""
    else if s[0] == 'm' then Visible(s[1..])
    else Skip(s[1..])
  }

  /** Inside a sequence, everything up to and including the 'm' is hidden. */
  lemma {:induction false} SkipThrough(a: string, rest: string)
    requires 'm' !in a
    ensures Skip(a + "m" + rest) == Visible(rest)
    decreases |a|
  {
    if |a| == 0 {
      assert a + "m" + rest == "m" + rest;
      assert ("m" + rest)[1..] == rest;
    } else {
      SkipThrough(a[1..], rest);
      assert (a + "m" + rest)[0] == a[0];
      assert (a + "m" + rest)[1..] == a[1..] + "m" + rest;
    }
  }

  /** An SGR sequence shows nothing. */
  lemma VisibleSgr(params: string, rest: string)
    requires 'm' !in params
    ensures Visible(Sgr(params) + rest) == Visible(rest)
  {
    var s := Sgr(params) + rest;
    SkipThrough("[" + params, rest);
    assert s[0] == Text.Esc;
    assert s[1..] == "[" + params + "m" + rest;
  }

  /** Text without escape characters shows as itself. */
  lemma {:induction false} VisiblePlain(t: string, rest: string)
    requires Text.Esc !in t
    ensures Visible(t + rest) == t + Visible(rest)
    decreases |t|
  {
    if |t| > 0 {
      VisiblePlain(t[1..], rest);
      assert (t + rest)[0] == t[0] != Text.Esc;
      assert (t + rest)[1..] == t[1..] + rest;
      assert t == [t[0]] + t[1..];
    } else {
      assert t + rest == rest;
    }
  }

  /** A piece of terminal output: text, or an SGR sequence. */
  datatype Segment = Plain(text: string) | Code(params: string)

  /** Terminal output as a list of segments. */
  datatype Output = End | Then(seg: Segment, rest: Output)

  function Piece(seg: Segment): string
  {
    match seg
    case Plain(t) => t
    case Code(p) => Sgr(p)
  }

  /** The characters written for the segments. */
  function Render(out: Output): string
  {
    match out
    case End => ""
    case Then(seg, rest) => Piece(seg) + Render(rest)
  }

  /** The text of the segments alone. */
  function Shown(out: Output): string
  {
    match out
    case End => ""
    case Then(seg, rest) => (if seg.Plain? then seg.text else "") + Shown(rest)
  }

  /** Text without escape characters, codes without the final byte. */
  predicate Clean(seg: Segment)
  {
    match seg
    case Plain(t) => Text.Esc !in t
    case Code(p) => 'm' !in p
  }

  predicate AllClean(out: Output)
  {
    match out
    case End => true
    case Then(seg, rest) => Clean(seg) && AllClean(rest)
  }

  /** A terminal shows exactly the text of clean segments. */
  lemma {:induction false} RenderVisible(out: Output)
    requires AllClean(out)
    ensures Visible(Render(out)) == Shown(out)
  {
    match out
    case End =>
    case Then(seg, rest) =>
      RenderVisible(rest);
      match seg
      case Plain(t) => VisiblePlain(t, Render(rest));
      case Code(p) => VisibleSgr(p, Render(rest));
  }

  /** Four pieces grouped from the right are the same string grouped from
      the left. */
  lemma Assoc(a: string, b: string, c: string, d: string)
    ensures a + (b + (c + d)) == a + b + c + d
  {
  }

  /** The segments `colorize` writes. */
  function ColorizeOut(text: string, params: string, bold: bool): Output
  {
    var plain := Then(Code(params), Then(Plain(text), Then(Code("0"), End)));
    if bold then Then(Code("1"), plain) else plain
  }

  /** `colorize` writes exactly those segments. */
  lemma ColorizeRender(text: string, params: string, bold: bool)
    ensures Render(ColorizeOut(text, params, bold)) == Colorize(text, Sgr(params), bold)
  {
    var o2 := Then(Code("0"), End);
    assert Render(o2) == Reset + "" == Reset;
    var o1 := Then(Plain(text), o2);
    assert Render(o1) == text + Reset;
    var o0 := Then(Code(params), o1);
    assert Render(o0) == Sgr(params) + (text + Reset);
    Assoc("", Sgr(params), text, Reset);
    if bold {
      Assoc(Bold, Sgr(params), text, Reset);
      assert Render(Then(Code("1"), o0)) == Bold + Render(o0);
    }
  }

  /** Of those segments only the text shows. */
  lemma ColorizeShown(text: string, params: string, bold: bool)
    requires 'm' !in params && Text.Esc !in text
    ensures AllClean(ColorizeOut(text, params, bold))
    ensures Shown(ColorizeOut(text, params, bold)) == text
  {
    var o2 := Then(Code("0"), End);
    assert AllClean(o2) && Shown(o2) == "";
    var o1 := Then(Plain(text), o2);
    assert AllClean(o1) && Shown(o1) == text + "" == text;
    var o0 := Then(Code(params), o1);
    assert AllClean(o0) && Shown(o0) == "" + text == text;
    assert AllClean(Then(Code("1"), o0)) && Shown(Then(Code("1"), o0)) == "" + text;
  }

  /** Colouring text, bold or not, leaves exactly the text visible. */
  lemma ColorizeVisible(text: string, params: string, bold: bool)
    requires 'm' !in params && Text.Esc !in text
    ensures Visible(Colorize(text, Sgr(params), bold)) == text
  {
    ColorizeRender(text, params, bold);
    ColorizeShown(text, params, bold);
    RenderVisible(ColorizeOut(text, params, bold));
  }

  /** `format_pair_line(label, bg_rgb, fg_rgb)` as written to the terminal:
      the label left-aligned in twenty columns and a space, the "Aa" sample
      on the pair's background and foreground, the reset, then both hex
      codes. */
  function PairLine(title: string, bg: Rgb, fg: Rgb): Output
  {
    Then(Plain(Text.PadRight(title, 20) + " "),
    SampleThen(TrueColorParams("48", bg.r, bg.g, bg.b), TrueColorParams("38", fg.r, fg.g, fg.b),
               "  " + Hex(bg) + " | " + Hex(fg)))
  }

  /** The "Aa" sample on a background and foreground, the reset, then
      plain text. */
  function SampleThen(bgParams: string, fgParams: string, tail: string): Output
  {
    Then(Code(bgParams), Then(Code(fgParams), Then(Plain(" Aa "), Then(Code("0"), Then(Plain(tail), End)))))
  }

  /** Of the sample only " Aa " shows. */
  lemma SampleShown(bgParams: string, fgParams: string, tail: string)
    requires 'm' !in bgParams && 'm' !in fgParams && Text.Esc !in tail
    ensures AllClean(SampleThen(bgParams, fgParams, tail))
    ensures Shown(SampleThen(bgParams, fgParams, tail)) == " Aa " + tail
  {
    var o4 := Then(Plain(tail), End);
    assert AllClean(o4) && Shown(o4) == tail + "" == tail;
    var o3 := Then(Code("0"), o4);
    assert AllClean(o3) && Shown(o3) == "" + tail == tail;
    var o2 := Then(Plain(" Aa "), o3);
    assert AllClean(o2) && Shown(o2) == " Aa " + tail;
    var o1 := Then(Code(fgParams), o2);
    assert AllClean(o1) && Shown(o1) == "" + Shown(o2) == Shown(o2);
    var o0 := Then(Code(bgParams), o1);
    assert AllClean(o0) && Shown(o0) == "" + Shown(o1) == Shown(o1);
    assert o0 == SampleThen(bgParams, fgParams, tail);
  }

  function FormatPairLine(title: string, bg: Rgb, fg: Rgb): string
  {
    Render(PairLine(title, bg, fg))
  }

  /** `format_single_line(label, rgb)`: the label, a four-space swatch on
      the colour, the reset, then the hex code. */
  function SingleLine(title: string, c: Rgb): Output
  {
    Then(Plain(Text.PadRight(title, 20) + " "),
    Then(Code(TrueColorParams("48", c.r, c.g, c.b)),
    Then(Plain("    "),
    Then(Code("0"),
    Then(Plain("  " + Hex(c)), End)))))
  }

  function FormatSingleLine(title: string, c: Rgb): string
  {
    Render(SingleLine(title, c))
  }

  /** The colour selections of the preview are `bg_rgb` and `rgb_to_ansi`. */
  lemma PreviewCodes(title: string, bg: Rgb, fg: Rgb)
    ensures PairLine(title, bg, fg).rest.seg.Code?
    ensures Piece(PairLine(title, bg, fg).rest.seg) == BgRgb(bg.r, bg.g, bg.b)
    ensures Piece(PairLine(title, bg, fg).rest.rest.seg) == RgbToAnsi(fg.r, fg.g, fg.b)
    ensures Piece(PairLine(title, bg, fg).rest.rest.rest.rest.seg) == Reset
    ensures Piece(SingleLine(title, bg).rest.seg) == BgRgb(bg.r, bg.g, bg.b)
    ensures Piece(SingleLine(title, bg).rest.rest.rest.seg) == Reset
  {
  }

  /** A hex code holds no escape character. */
  lemma HexPlain(c: Rgb)
    ensures Text.Esc !in Hex(c)
  {
    HexAlphabet(c);
    var h := Hex(c);
    forall k | 0 <= k < |h|
      ensures h[k] != Text.Esc
    {
      assert h[k] == '#' || h[k] in Text.LowerDigits;
    }
  }

  /** Padding a title adds only spaces. */
  lemma PadPlain(title: string)
    requires Text.Esc !in title
    ensures Text.Esc !in Text.PadRight(title, 20)
  {
    var p := Text.PadRight(title, 20);
    forall k | 0 <= k < |p|
      ensures p[k] != Text.Esc
    {
      if k < |title| {
        assert p[k] == p[..|title|][k] == title[k];
      }
    }
  }

  /** A padded title and a space, then the sample, show as the title,
      two spaces and " Aa ". */
  lemma PairVisible(pad: string, bgParams: string, fgParams: string, tail: string)
    requires Text.Esc !in pad && Text.Esc !in tail
    requires 'm' !in bgParams && 'm' !in fgParams
    ensures Visible(Render(Then(Plain(pad + " "), SampleThen(bgParams, fgParams, tail))))
         == pad + "  Aa " + tail
  {
    var o1 := SampleThen(bgParams, fgParams, tail);
    SampleShown(bgParams, fgParams, tail);
    var out := Then(Plain(pad + " "), o1);
    assert Text.Esc !in pad + " ";
    assert AllClean(out) && Shown(out) == (pad + " ") + (" Aa " + tail);
    RenderVisible(out);
    assert (pad + " ") + (" Aa " + tail) == pad + "  Aa " + tail by {
      assert " " + " Aa " == "  Aa ";
    }
  }

  /** On screen a pair line is the title padded to at least twenty
      columns, a space, " Aa " and two spaces, then "bg | fg" in hex. */
  lemma PairLineVisible(title: string, bg: Rgb, fg: Rgb)
    requires Text.Esc !in title
    ensures Visible(FormatPairLine(title, bg, fg))
         == Text.PadRight(title, 20) + "  Aa   " + Hex(bg) + " | " + Hex(fg)
  {
    HexPlain(bg);
    HexPlain(fg);
    PadPlain(title);
    TrueColorClean("48", bg.r, bg.g, bg.b);
    TrueColorClean("38", fg.r, fg.g, fg.b);
    CodesPlain(Hex(bg), Hex(fg));
    PairVisible(Text.PadRight(title, 20), TrueColorParams("48", bg.r, bg.g, bg.b),
                TrueColorParams("38", fg.r, fg.g, fg.b), "  " + Hex(bg) + " | " + Hex(fg));
    PairRegroup(Text.PadRight(title, 20), Hex(bg), Hex(fg));
  }

  /** The hex codes with their separators hold no escape character. */
  lemma CodesPlain(hb: string, hf: string)
    requires Text.Esc !in hb && Text.Esc !in hf
    ensures Text.Esc !in "  " + hb + " | " + hf
  {
    assert Text.Esc !in "  ";
    assert Text.Esc !in " | ";
  }

  lemma PairRegroup(pad: string, hb: string, hf: string)
    ensures pad + "  Aa " + ("  " + hb + " | " + hf) == pad + "  Aa   " + hb + " | " + hf
  {
    assert "  Aa " + "  " == "  Aa   ";
  }

  /** On screen a single line is the padded title, five spaces around the
      swatch, then the hex code. */
  lemma SingleLineVisible(title: string, c: Rgb)
    requires Text.Esc !in title
    ensures Visible(FormatSingleLine(title, c)) == Text.PadRight(title, 20) + "       " + Hex(c)
  {
    var pad := Text.PadRight(title, 20);
    var tail := "  " + Hex(c);
    HexPlain(c);
    PadPlain(title);
    TrueColorClean("48", c.r, c.g, c.b);
    var o4 := Then(Plain(tail), End);
    assert AllClean(o4) && Shown(o4) == tail + "" == tail;
    var o3 := Then(Code("0"), o4);
    assert AllClean(o3) && Shown(o3) == "" + tail;
    var o2 := Then(Plain("    "), o3);
    assert AllClean(o2) && Shown(o2) == "    " + ("" + tail);
    var o1 := Then(Code(TrueColorParams("48", c.r, c.g, c.b)), o2);
    assert AllClean(o1) && Shown(o1) == "" + Shown(o2);
    var out := Then(Plain(pad + " "), o1);
    assert Text.Esc !in pad + " ";
    assert AllClean(out) && Shown(out) == (pad + " ") + Shown(o1);
    assert out == SingleLine(title, c);
    RenderVisible(out);
    SingleRegroup(pad, Hex(c));
  }

  lemma SingleRegroup(pad: string, h: string)
    ensures (pad + " ") + ("" + ("    " + ("" + ("  " + h)))) == pad + "       " + h
  {
    assert " " + "    " + "  " == "       ";
  }
}
