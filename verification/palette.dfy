/** `palette_generator`: a colour in each of the six output formats, the
    per-colour lines of `compile_color_syntax`, and the placeholder
    replacement of `compile_template`, each either over the named palette or
    over a remap table whose entries derive new colours from it. */
module PaletteGenerator {
  import opened Wrappers
  import opened Colors
  import HexFormat
  import Text
  import Dict
  import Transformation

  /** SUPPORTED_COLOR_FORMATS, in order. */
  const SupportedFormats: seq<string> := ["hex6", "hex8", "rgb", "rgba", "rgb_decimal", "rgba_decimal"]

  /** `', '.join(SUPPORTED_COLOR_FORMATS)`. */
  const FormatList: string := "hex6, hex8, rgb, rgba, rgb_decimal, rgba_decimal"

  /** The ValueError for an unknown format. The message continues a source
      line with a backslash, so the next line's twelve-space indent is part
      of it. */
  function UnsupportedFormat(fmt: string): Fault
  {
    ValueError(fmt + " is not a supported color format, " + "            " + "Supported formats are " + FormatList)
  }

  /** What reaches `_convert_format`: a palette colour, or the RGBA that a
      remap entry produces. */
  datatype Paint = Solid(rgb: Rgb) | Translucent(rgba: Rgba)

  function Channels(p: Paint): Rgb
  {
    match p
    case Solid(c) => c
    case Translucent(q) => q.rgb
  }

  /** `f"{r}, {g}, {b}"`. */
  function Triple(c: Rgb): string
  {
    Text.Decimal(c.r) + ", " + Text.Decimal(c.g) + ", " + Text.Decimal(c.b)
  }

  /** The alpha as printed: the literal "1.0" for an RGB colour, otherwise
      Python's `str` of the float, which is a parameter of the model. */
  function AlphaText(p: Paint, showFloat: real -> string): string
  {
    match p
    case Solid(_) => "1.0"
    case Translucent(q) => showFloat(q.a)
  }

  /** The alpha byte of the eight-digit hex form. */
  function AlphaByte(p: Paint): int
  {
    match p
    case Solid(_) => 255
    case Translucent(q) => HexFormat.ClampedAlphaByte(q.a)
  }

  /** `_convert_format(color, color_format)` over the namedtuple colours of
      the utility data types, whose `hex`, `hex6` and `hex8` are upper-case
      and which unpack into their fields. */
  function ConvertFormat(p: Paint, fmt: string, showFloat: real -> string): (r: Result<string>)
    ensures r.Ok? <==> fmt in SupportedFormats
    ensures r.Err? ==> r.fault == UnsupportedFormat(fmt)
  {
    var c := Channels(p);
    if fmt !in SupportedFormats then Err(UnsupportedFormat(fmt))
    else if fmt == "hex6" then Ok(HexFormat.Hex6(c.r, c.g, c.b))
    else if fmt == "rgb" then Ok("rgb(" + Triple(c) + ")")
    else if fmt == "rgb_decimal" then Ok(Triple(c))
    else if fmt == "hex8" then
      match p
      case Solid(_) => Ok(HexFormat.Hex6(c.r, c.g, c.b) + "FF")
      case Translucent(q) => Ok(HexFormat.RgbaToHex8(HexFormat.RgbaTuple(c.r, c.g, c.b, q.a)))
    else if fmt == "rgba" then Ok("rgba(" + Triple(c) + ", " + AlphaText(p, showFloat) + ")")
    else Ok(Triple(c) + ", " + AlphaText(p, showFloat))
  }

  /** The hex forms read back: "#RRGGBB" holds the channels, and the
      eight-digit form is the six-digit one followed by the alpha byte,
      0xFF for an RGB colour. */
  lemma HexRoundTrip(p: Paint, showFloat: real -> string)
    ensures var s := ConvertFormat(p, "hex6", showFloat).value;
      && |s| == 7 && s[0] == '#'
      && Text.HexValue(s[1..3]) == Channels(p).r
      && Text.HexValue(s[3..5]) == Channels(p).g
      && Text.HexValue(s[5..7]) == Channels(p).b
    ensures var s := ConvertFormat(p, "hex8", showFloat).value;
      && |s| == 9 && s[..7] == ConvertFormat(p, "hex6", showFloat).value
      && Text.HexValue(s[7..]) == AlphaByte(p)
  {
    var c := Channels(p);
    var a := if p.Solid? then 1.0 else p.rgba.a;
    ConvertHex(p, showFloat);
    HexFormat.RgbaToHexLayout(c.r, c.g, c.b, a);
    if p.Solid? {
      SolidHex8(c);
    }
  }

  /** The two hex forms are `rgba_to_hex` without and with the alpha, 1.0
      for an RGB colour. */
  lemma ConvertHex(p: Paint, showFloat: real -> string)
    ensures var c, a := Channels(p), if p.Solid? then 1.0 else p.rgba.a;
      && ConvertFormat(p, "hex6", showFloat) == Ok(HexFormat.RgbaToHex(c.r, c.g, c.b, None))
      && ConvertFormat(p, "hex8", showFloat) == Ok(HexFormat.RgbaToHex(c.r, c.g, c.b, Some(a)))
  {
    var c := Channels(p);
    HexFormat.AlphaSuffixes(c.r, c.g, c.b);
    if p.Translucent? {
      HexFormat.TupleHexAgrees(HexFormat.RgbaTuple(c.r, c.g, c.b, p.rgba.a));
    }
  }

  lemma SolidHex8(c: Rgb)
    ensures HexFormat.RgbaToHex(c.r, c.g, c.b, Some(1.0)) == HexFormat.Hex6(c.r, c.g, c.b) + "FF"
    ensures HexFormat.ClampedAlphaByte(1.0) == 255
  {
    HexFormat.AlphaSuffixes(c.r, c.g, c.b);
    HexFormat.ClampedAlphaByteEnds(1.0);
  }

  /** The six-digit hex, rgb and rgb_decimal forms ignore the alpha. */
  lemma AlphaIgnored(q: Rgba, fmt: string, showFloat: real -> string)
    requires fmt in ["hex6", "rgb", "rgb_decimal"]
    ensures ConvertFormat(Translucent(q), fmt, showFloat) == ConvertFormat(Solid(q.rgb), fmt, showFloat)
  {
  }

  /** An RGB colour converts exactly like the same colour at alpha 1.0,
      in every format, provided 1.0 prints as "1.0". */
  lemma OpaqueIsFullAlpha(c: Rgb, fmt: string, showFloat: real -> string)
    requires showFloat(1.0) == "1.0"
    ensures ConvertFormat(Solid(c), fmt, showFloat) == ConvertFormat(Translucent(Rgba(c, 1.0)), fmt, showFloat)
  {
    HexFormat.AlphaSuffixes(c.r, c.g, c.b);
  }

  /** The CSS forms wrap the decimal forms. */
  lemma CssWrapsDecimal(p: Paint, showFloat: real -> string)
    ensures ConvertFormat(p, "rgb", showFloat).value == "rgb(" + ConvertFormat(p, "rgb_decimal", showFloat).value + ")"
    ensures ConvertFormat(p, "rgba", showFloat).value == "rgba(" + ConvertFormat(p, "rgba_decimal", showFloat).value + ")"
  {
    var t := Triple(Channels(p));
    var a := AlphaText(p, showFloat);
    assert "rgba(" + t + ", " + a + ")" == "rgba(" + (t + ", " + a) + ")";
  }

  /** Reads "r, g, b" back: three comma-separated fields, each stripped and
      parsed as a decimal. */
  function ReadTriple(s: string): Option<(int, int, int)>
  {
    var f := Text.Split(s, ',');
    if |f| == 3 then Some((Text.ParseInt(Text.Strip(f[0])), Text.ParseInt(Text.Strip(f[1])), Text.ParseInt(Text.Strip(f[2]))))
    else None
  }

  lemma DecimalCharNotSpace(ch: char)
    requires ch == '-' || '0' <= ch <= '9'
    ensures !Text.IsSpace(ch) && ch != ','
  {
  }

  /** A decimal holds no comma, and neither it nor it after a space needs
      more than stripping to read back. */
  lemma DecimalField(n: int)
    ensures ',' !in Text.Decimal(n)
    ensures Text.Strip(Text.Decimal(n)) == Text.Decimal(n)
    ensures Text.Strip(" " + Text.Decimal(n)) == Text.Decimal(n)
  {
    var d := Text.Decimal(n);
    Text.DecimalAlphabet(n);
    DecimalCharNotSpace(d[0]);
    DecimalCharNotSpace(d[|d| - 1]);
    assert Text.StripLeft(d) == d;
    assert Text.StripRight(d) == d;
    var sd := " " + d;
    assert Text.IsSpace(sd[0]) && sd[1..] == d;
    assert Text.StripLeft(sd) == d;
  }

  /** Three comma-free fields joined by ", " split back into the first
      field and the other two with their leading space. */
  lemma SplitThree(a: string, b: string, c: string)
    requires ',' !in a && ',' !in b && ',' !in c
    ensures Text.Split(a + ", " + b + ", " + c, ',') == [a, " " + b, " " + c]
  {
    var parts := [a, " " + b, " " + c];
    assert Text.Join(parts[2..], ',') == " " + c;
    assert Text.Join(parts[1..], ',') == " " + b + [','] + (" " + c) by {
      assert parts[1..][1..] == parts[2..];
    }
    assert Text.Join(parts, ',') == a + [','] + (" " + b + [','] + (" " + c));
    assert a + ", " + b + ", " + c == a + [','] + (" " + b + [','] + (" " + c));
    Text.SplitJoin(parts, ',');
  }

  /** Three comma-free fields joined by ", " read back field by field. */
  lemma ReadThree(a: string, b: string, c: string)
    requires ',' !in a && ',' !in b && ',' !in c
    ensures ReadTriple(a + ", " + b + ", " + c)
      == Some((Text.ParseInt(Text.Strip(a)), Text.ParseInt(Text.Strip(" " + b)), Text.ParseInt(Text.Strip(" " + c))))
  {
    SplitThree(a, b, c);
  }

  /** Three decimals joined by ", " read back as the three integers. */
  lemma ReadDecimals(x: int, y: int, z: int)
    ensures ReadTriple(Text.Decimal(x) + ", " + Text.Decimal(y) + ", " + Text.Decimal(z)) == Some((x, y, z))
  {
    DecimalField(x);
    DecimalField(y);
    DecimalField(z);
    Text.DecimalRoundTrip(x);
    Text.DecimalRoundTrip(y);
    Text.DecimalRoundTrip(z);
    ReadThree(Text.Decimal(x), Text.Decimal(y), Text.Decimal(z));
  }

  /** The decimal form reads back as the channels. */
  lemma DecimalRoundTrip(p: Paint, showFloat: real -> string)
    ensures var c := Channels(p);
      ReadTriple(ConvertFormat(p, "rgb_decimal", showFloat).value) == Some((c.r, c.g, c.b))
  {
    var c := Channels(p);
    assert ConvertFormat(p, "rgb_decimal", showFloat).value == Triple(c);
    ReadDecimals(c.r, c.g, c.b);
  }

  /** `_convert_format` as written: the module imports the core colour
      classes, whose RGB is lower-case `hex` only, whose RGBA has `hex` and
      `hex8` but no `hex6`, and neither of which can be unpacked. */
  function ConvertFormatAsWritten(p: Paint, fmt: string): (r: Result<string>)
    ensures fmt !in SupportedFormats ==> r == Err(UnsupportedFormat(fmt))
  {
    if fmt !in SupportedFormats then Err(UnsupportedFormat(fmt))
    else if fmt == "hex6" then
      match p
      case Solid(c) => Ok(Hex(c))
      case Translucent(_) => Err(AttributeError("'RGBA' object has no attribute 'hex6'"))
    else if fmt == "hex8" then
      match p
      case Solid(c) => Ok(Hex(c) + "FF")
      case Translucent(q) => Ok(Hex8(q))
    else Err(TypeError("cannot unpack non-iterable " + (if p.Solid? then "RGB" else "RGBA") + " object"))
  }

  /** As written, every rgb-family format fails on every colour, and a
      remapped colour cannot be written as hex6; the documented outputs
      "rgb(255, 128, 0)" and "#FF8000" come from the intended conversion. */
  lemma ConvertFormatDiscrepancy(p: Paint, fmt: string, showFloat: real -> string)
    ensures fmt in ["rgb", "rgba", "rgb_decimal", "rgba_decimal"] ==>
      ConvertFormatAsWritten(p, fmt).Err? && ConvertFormat(p, fmt, showFloat).Ok?
    ensures p.Translucent? ==> ConvertFormatAsWritten(p, "hex6").Err? && ConvertFormat(p, "hex6", showFloat).Ok?
    ensures ConvertFormatAsWritten(Solid(Rgb(255, 128, 0)), "hex6") == Ok("#ff8000")
    ensures ConvertFormat(Solid(Rgb(255, 128, 0)), "hex6", showFloat) == Ok("#FF8000")
    ensures ConvertFormat(Solid(Rgb(255, 128, 0)), "rgb", showFloat) == Ok("rgb(255, 128, 0)")
  {
    ConvertExamples(showFloat);
  }

  lemma ConvertExamples(showFloat: real -> string)
    ensures ConvertFormatAsWritten(Solid(Rgb(255, 128, 0)), "hex6") == Ok("#ff8000")
    ensures ConvertFormat(Solid(Rgb(255, 128, 0)), "hex6", showFloat) == Ok("#FF8000")
    ensures ConvertFormat(Solid(Rgb(255, 128, 0)), "rgb", showFloat) == Ok("rgb(255, 128, 0)")
  {
    HexExample();
    HexUpperExample(showFloat);
    RgbFormatExample(showFloat);
  }

  lemma HexUpperExample(showFloat: real -> string)
    ensures ConvertFormat(Solid(Rgb(255, 128, 0)), "hex6", showFloat) == Ok("#FF8000")
  {
    HexFormat.HexExamples();
    assert HexFormat.RgbToHex6(HexFormat.RgbTuple(255, 128, 0)) == HexFormat.Hex6(255, 128, 0);
  }

  lemma RgbFormatExample(showFloat: real -> string)
    ensures ConvertFormat(Solid(Rgb(255, 128, 0)), "rgb", showFloat) == Ok("rgb(255, 128, 0)")
  {
    RgbExample();
    assert "rgb(" + "255, 128, 0" + ")" == "rgb(255, 128, 0)";
  }

  lemma RgbExample()
    ensures Triple(Rgb(255, 128, 0)) == "255, 128, 0"
  {
    assert Text.Decimal(255) == "255";
    assert Text.Decimal(128) == "128";
    assert Text.Decimal(0) == "0";
  }

  /** One entry of a remap table. */
  datatype Remap = Remap(source: Option<string>, hue: Option<int>, saturation: Option<real>,
                         brightness: Option<real>, contrast: Option<real>, temperature: Option<int>,
                         opacity: Option<real>)

  /** The entry's source is given and names a palette colour. */
  predicate Resolves(named: Dict.Dict<string, Rgb>, params: Remap)
  {
    params.source.Some? && Dict.HasKey(named, params.source.value)
  }

  /** `params["source"]`, `named_colors[source]`, then `_transform_color`. */
  function Remapped(named: Dict.Dict<string, Rgb>, params: Remap): (r: Result<Paint>)
    ensures r.Ok? <==> Resolves(named, params)
    ensures r.Ok? ==> r.value.Translucent? && 0.0 <= r.value.rgba.a <= 1.0
    ensures params.source.None? ==> r == Err(KeyError("source"))
    ensures params.source.Some? && !Resolves(named, params) ==> r == Err(KeyError(params.source.value))
  {
    match params.source
    case None => Err(KeyError("source"))
    case Some(src) =>
      match Dict.Get(named, src)
      case None => Err(KeyError(src))
      case Some(c) =>
        Ok(Translucent(Transformation.TransformColor(c, params.hue, params.saturation, params.brightness,
                                                     params.contrast, params.temperature, params.opacity)))
  }

  /** Each palette colour's name with its converted value, in dict order;
      the first conversion that raises ends the loop. */
  function NamedEntries(named: Dict.Dict<string, Rgb>, fmt: string, showFloat: real -> string)
    : (r: Result<seq<(string, string)>>)
    ensures r.Ok? <==> |named| == 0 || fmt in SupportedFormats
    ensures r.Err? ==> r.fault == UnsupportedFormat(fmt)
    ensures r.Ok? ==> |r.value| == |named|
    ensures r.Ok? ==> forall i :: 0 <= i < |named| ==>
      r.value[i] == (named[i].0, ConvertFormat(Solid(named[i].1), fmt, showFloat).value)
  {
    if |named| == 0 then Ok([])
    else
      match ConvertFormat(Solid(named[0].1), fmt, showFloat)
      case Err(f) => Err(f)
      case Ok(conv) =>
        match NamedEntries(named[1..], fmt, showFloat)
        case Err(f) => Err(f)
        case Ok(rest) => Ok([(named[0].0, conv)] + rest)
  }

  /** Each remap entry's name with its derived colour converted, in dict
      order; a missing source or palette colour raises KeyError before the
      format is checked. */
  function RemapEntries(named: Dict.Dict<string, Rgb>, remap: Dict.Dict<string, Remap>, fmt: string,
                        showFloat: real -> string): (r: Result<seq<(string, string)>>)
    ensures r.Ok? <==> (forall i :: 0 <= i < |remap| ==> Resolves(named, remap[i].1))
                       && (|remap| == 0 || fmt in SupportedFormats)
    ensures r.Err? ==> r.fault.KeyError? || r.fault == UnsupportedFormat(fmt)
    ensures |remap| > 0 && !Resolves(named, remap[0].1) ==> r == Err(Remapped(named, remap[0].1).fault)
    ensures r.Ok? ==> |r.value| == |remap|
    ensures r.Ok? ==> forall i :: 0 <= i < |remap| ==>
      r.value[i] == (remap[i].0, ConvertFormat(Remapped(named, remap[i].1).value, fmt, showFloat).value)
  {
    if |remap| == 0 then Ok([])
    else
      match Remapped(named, remap[0].1)
      case Err(f) => Err(f)
      case Ok(p) =>
        match ConvertFormat(p, fmt, showFloat)
        case Err(f) => Err(f)
        case Ok(conv) =>
          match RemapEntries(named, remap[1..], fmt, showFloat)
          case Err(f) => Err(f)
          case Ok(rest) => Ok([(remap[0].0, conv)] + rest)
  }

  /** The entries both compile functions work from. */
  function Entries(named: Dict.Dict<string, Rgb>, fmt: string, remap: Option<Dict.Dict<string, Remap>>,
                   showFloat: real -> string): Result<seq<(string, string)>>
  {
    match remap
    case None => NamedEntries(named, fmt, showFloat)
    case Some(table) => RemapEntries(named, table, fmt, showFloat)
  }

  /** `syntax.replace("{color}", color).replace("{name}", name)`. */
  function Line(syntax: string, color: string, name: string): string
  {
    Text.Replace(Text.Replace(syntax, "{color}", color), "{name}", name)
  }

  /** `compile_color_syntax(named_colors, syntax, color_format, remap)`. */
  function CompileColorSyntax(named: Dict.Dict<string, Rgb>, syntax: string, fmt: string,
                              remap: Option<Dict.Dict<string, Remap>>, showFloat: real -> string)
    : (r: Result<seq<string>>)
    ensures r.Ok? <==> Entries(named, fmt, remap, showFloat).Ok?
    ensures r.Ok? ==> var e := Entries(named, fmt, remap, showFloat).value;
      |r.value| == |e| && forall i :: 0 <= i < |e| ==> r.value[i] == Line(syntax, e[i].1, e[i].0)
  {
    var e :- Entries(named, fmt, remap, showFloat);
    Ok(seq(|e|, i requires 0 <= i < |e| => Line(syntax, e[i].1, e[i].0)))
  }

  /** The first replacement: the colour placeholder after a name
      placeholder that shares only its opening character with it. */
  lemma ColorAfterName(pre: string, nt: string, mid: string, post: string, conv: string, cp: string)
    requires 1 < |cp| && |nt| > 0 && nt[0] != cp[1] && cp[0] !in nt
    requires cp[0] !in pre && cp[0] !in mid && cp[0] !in post
    ensures Text.Replace(pre + ([cp[0]] + (nt + (mid + (cp + post)))), cp, conv)
      == pre + ([cp[0]] + (nt + (mid + (conv + post))))
  {
    var tail := mid + (cp + post);
    Text.ReplacePrefix(pre, [cp[0]] + (nt + tail), cp, conv);
    Text.ReplaceSkip(cp[0], nt, tail, cp, conv);
    Text.ReplaceOnce(mid, post, cp, conv);
  }

  /** A syntax with "{name}" before "{color}" and no other brace puts the
      name and the converted colour in their places. */
  lemma NameThenColor(pre: string, mid: string, post: string, conv: string, name: string)
    requires '{' !in pre && '{' !in mid && '{' !in post && '{' !in conv
    ensures Line(pre + ("{name}" + (mid + ("{color}" + post))), conv, name) == pre + (name + (mid + (conv + post)))
  {
    var cp, np, nt := "{color}", "{name}", "name}";
    assert np == [cp[0]] + nt && nt[0] != cp[1] && cp[0] !in nt;
    var tail := mid + (cp + post);
    assert np + tail == [cp[0]] + (nt + tail);
    ColorAfterName(pre, nt, mid, post, conv, cp);
    assert np + (mid + (conv + post)) == [cp[0]] + (nt + (mid + (conv + post)));
    Text.ReplaceOnce(pre, mid + (conv + post), np, name);
  }

  /** A syntax with only "{color}" and no other brace. */
  lemma ColorOnly(pre: string, post: string, conv: string, name: string)
    requires '{' !in pre && '{' !in post && '{' !in conv
    ensures Line(pre + ("{color}" + post), conv, name) == pre + (conv + post)
  {
    Text.ReplaceOnce(pre, post, "{color}", conv);
    Text.ReplaceAbsentFirst(pre + (conv + post), "{name}", name);
  }

  /** No conversion writes a brace, given that the float printer does not. */
  lemma NoBrace(p: Paint, fmt: string, showFloat: real -> string)
    requires forall x :: '{' !in showFloat(x)
    requires fmt in SupportedFormats
    ensures '{' !in ConvertFormat(p, fmt, showFloat).value
  {
    var c := Channels(p);
    if fmt == "hex6" || fmt == "hex8" {
      ConvertHex(p, showFloat);
      HexTextNoBrace(c.r, c.g, c.b, if p.Solid? then 1.0 else p.rgba.a);
    } else {
      TripleNoBrace(c);
      assert '{' !in AlphaText(p, showFloat);
    }
  }

  lemma HexTextNoBrace(r: int, g: int, b: int, a: real)
    ensures '{' !in HexFormat.RgbaToHex(r, g, b, None)
    ensures '{' !in HexFormat.RgbaToHex(r, g, b, Some(a))
  {
    HexNoBrace(r, g, b);
    FieldNoBrace(HexFormat.ClampedAlphaByte(a));
  }

  lemma TripleNoBrace(c: Rgb)
    ensures '{' !in Triple(c)
  {
    DecimalNoBrace(c.r);
    DecimalNoBrace(c.g);
    DecimalNoBrace(c.b);
  }

  lemma DecimalNoBrace(n: int)
    ensures '{' !in Text.Decimal(n)
  {
    Text.DecimalAlphabet(n);
  }

  lemma FieldNoBrace(n: int)
    requires 0 <= n < 256
    ensures '{' !in Text.HexField(n, true)
  {
    Text.HexFieldDigits(n, true);
    assert '{' !in Text.UpperDigits;
  }

  lemma HexNoBrace(r: int, g: int, b: int)
    ensures '{' !in HexFormat.Hex6(r, g, b)
  {
    FieldNoBraceAny(r);
    FieldNoBraceAny(g);
    FieldNoBraceAny(b);
  }

  lemma FieldNoBraceAny(n: int)
    ensures '{' !in Text.HexField(n, true)
  {
    if 0 <= n < 256 {
      FieldNoBrace(n);
    } else {
      HexDigitsNoBrace(if n < 0 then -n else n);
    }
  }

  lemma {:induction false} HexDigitsNoBrace(n: nat)
    ensures '{' !in Text.HexDigits(n, true)
  {
    if n >= 16 {
      HexDigitsNoBrace(n / 16);
    }
    assert '{' !in Text.UpperDigits;
  }

  /** A palette of one colour compiles to one line. */
  lemma SingleColorLine(name: string, c: Rgb, syntax: string, fmt: string, showFloat: real -> string)
    requires fmt in SupportedFormats
    ensures CompileColorSyntax([(name, c)], syntax, fmt, None, showFloat)
      == Ok([Line(syntax, ConvertFormat(Solid(c), fmt, showFloat).value, name)])
  {
    var r := CompileColorSyntax([(name, c)], syntax, fmt, None, showFloat);
    assert r.Ok? && |r.value| == 1;
    assert r.value == [r.value[0]];
  }

  /** The line of the first documented example. */
  lemma ExampleLine(syntax: string)
    requires syntax == "${name}: {color};"
    ensures Line(syntax, "#FF8000", "primary") == "$primary: #FF8000;"
  {
    var pre, mid, post, conv, name := "$", ": ", ";", "#FF8000", "primary";
    assert syntax == pre + ("{name}" + (mid + ("{color}" + post)));
    NameThenColor(pre, mid, post, conv, name);
    assert pre + (name + (mid + (conv + post))) == "$primary: #FF8000;";
  }

  /** The first documented example: every palette colour on its own line
      in the hex6 format. */
  lemma ColorSyntaxExample(named: Dict.Dict<string, Rgb>, syntax: string, showFloat: real -> string)
    requires named == [("primary", Rgb(255, 128, 0))] && syntax == "${name}: {color};"
    ensures CompileColorSyntax(named, syntax, "hex6", None, showFloat) == Ok(["$primary: #FF8000;"])
  {
    ConvertExamples(showFloat);
    SingleColorLine("primary", Rgb(255, 128, 0), syntax, "hex6", showFloat);
    ExampleLine(syntax);
  }

  /** Replaces each entry's key, `syntax` with "placeholder" replaced by its
      name, by its colour, one entry after another. */
  function FillTemplate(entries: seq<(string, string)>, syntax: string, template: string): string
  {
    if |entries| == 0 then template
    else
      var key := Text.Replace(syntax, "placeholder", entries[0].0);
      FillTemplate(entries[1..], syntax, Text.Replace(template, key, entries[0].1))
  }

  /** `compile_template(named_colors, syntax, template, color_format, remap)`. */
  function CompileTemplate(named: Dict.Dict<string, Rgb>, syntax: string, template: string, fmt: string,
                           remap: Option<Dict.Dict<string, Remap>>, showFloat: real -> string)
    : (r: Result<string>)
    ensures r.Ok? <==> Entries(named, fmt, remap, showFloat).Ok?
  {
    var e :- Entries(named, fmt, remap, showFloat);
    Ok(FillTemplate(e, syntax, template))
  }

  /** Replacing keys that do not occur leaves the template as it is. */
  lemma {:induction false} FillAbsent(entries: seq<(string, string)>, syntax: string, template: string)
    requires forall i :: 0 <= i < |entries| ==>
      var key := Text.Replace(syntax, "placeholder", entries[i].0);
      |key| > 0 && !Text.Contains(template, key)
    ensures FillTemplate(entries, syntax, template) == template
  {
    if |entries| > 0 {
      var key := Text.Replace(syntax, "placeholder", entries[0].0);
      assert |key| > 0 && !Text.Contains(template, key);
      Text.ReplaceAbsent(template, key, entries[0].1);
      FillAbsent(entries[1..], syntax, template);
    }
  }

  /** One entry whose key occurs once, after text that cannot start it,
      is replaced by its colour. */
  lemma FillOne(name: string, conv: string, syntax: string, pre: string, post: string)
    requires var key := Text.Replace(syntax, "placeholder", name);
      |key| > 0 && key[0] !in pre && !Text.Contains(post, key)
    ensures FillTemplate([(name, conv)], syntax, pre + Text.Replace(syntax, "placeholder", name) + post)
      == pre + conv + post
  {
    var key := Text.Replace(syntax, "placeholder", name);
    Text.ReplaceAbsent(post, key, conv);
    Text.ReplaceHead(post, key, conv);
    Text.ReplacePrefix(pre, key + post, key, conv);
    assert pre + key + post == pre + (key + post);
    var t := pre + conv + post;
    assert FillTemplate([(name, conv)], syntax, pre + key + post) == FillTemplate([], syntax, t);
  }

  /** Both compile functions raise on exactly the same inputs, and a
      template in which no key occurs comes back unchanged. */
  lemma TemplateAgrees(named: Dict.Dict<string, Rgb>, syntax: string, template: string, fmt: string,
                       remap: Option<Dict.Dict<string, Remap>>, showFloat: real -> string)
    ensures CompileTemplate(named, syntax, template, fmt, remap, showFloat).Ok?
      <==> CompileColorSyntax(named, syntax, fmt, remap, showFloat).Ok?
    ensures CompileTemplate(named, syntax, template, fmt, remap, showFloat).Ok?
      && |syntax| > 0 && !Text.Contains(syntax, "placeholder") && !Text.Contains(template, syntax)
      ==> CompileTemplate(named, syntax, template, fmt, remap, showFloat).value == template
  {
    var e := Entries(named, fmt, remap, showFloat);
    if e.Ok? && |syntax| > 0 && !Text.Contains(template, syntax) && !Text.Contains(syntax, "placeholder") {
      forall i | 0 <= i < |e.value|
        ensures Text.Replace(syntax, "placeholder", e.value[i].0) == syntax
      {
        Text.ReplaceAbsent(syntax, "placeholder", e.value[i].0);
      }
      FillAbsent(e.value, syntax, template);
    }
  }

  /** A template seen as literal chunks and slots, each slot standing for
      one entry. */
  datatype Piece = Chunk(text: string) | Slot(entry: nat)

  function PieceText(p: Piece, vals: seq<string>): string
  {
    match p
    case Chunk(t) => t
    case Slot(j) => if j < |vals| then vals[j] else ""
  }

  /** The text of a template whose slot j holds vals[j]. */
  function Assemble(pieces: seq<Piece>, vals: seq<string>): string
  {
    if |pieces| == 0 then "" else PieceText(pieces[0], vals) + Assemble(pieces[1..], vals)
  }

  /** The key `compile_template` searches for an entry. */
  function Key(syntax: string, name: string): string
  {
    Text.Replace(syntax, "placeholder", name)
  }

  function Keys(entries: seq<(string, string)>, syntax: string): (ks: seq<string>)
    ensures |ks| == |entries| && forall j :: 0 <= j < |entries| ==> ks[j] == Key(syntax, entries[j].0)
  {
    seq(|entries|, j requires 0 <= j < |entries| => Key(syntax, entries[j].0))
  }

  function Colours(entries: seq<(string, string)>): (cs: seq<string>)
    ensures |cs| == |entries| && forall j :: 0 <= j < |entries| ==> cs[j] == entries[j].1
  {
    seq(|entries|, j requires 0 <= j < |entries| => entries[j].1)
  }

  /** Text inside the template that a search for `pat` passes over: it has
      no `mark` at all, or it is another key that starts with `mark`, holds
      it nowhere else, and neither extends nor is extended by `pat`. */
  predicate Inert(v: string, pat: string, mark: char)
  {
    mark !in v || (|v| > 0 && v[0] == mark && mark !in v[1..] && !Text.PrefixOf(pat, v) && !Text.PrefixOf(v, pat))
  }

  /** Text that the search passes over is copied through unchanged. */
  lemma ReplaceInert(v: string, rest: string, pat: string, rep: string, mark: char)
    requires |pat| > 0 && pat[0] == mark && Inert(v, pat, mark)
    ensures Text.Replace(v + rest, pat, rep) == v + Text.Replace(rest, pat, rep)
  {
    if mark !in v {
      Text.ReplacePrefix(v, rest, pat, rep);
    } else {
      ReplaceOtherKey(v, rest, pat, rep);
    }
  }

  /** Another key, which neither extends nor is extended by the one sought,
      is copied through unchanged. */
  lemma ReplaceOtherKey(v: string, rest: string, pat: string, rep: string)
    requires |pat| > 0 && |v| > 0 && pat[0] !in v[1..] && !Text.PrefixOf(pat, v) && !Text.PrefixOf(v, pat)
    ensures Text.Replace(v + rest, pat, rep) == v + Text.Replace(rest, pat, rep)
  {
    var r := Text.Replace(rest, pat, rep);
    calc {
      Text.Replace(v + rest, pat, rep);
    == { Text.ConsAppend(v, rest); }
      Text.Replace([v[0]] + (v[1..] + rest), pat, rep);
    == { Text.NotPrefixNotAt(v, rest, pat); Text.ConsAppend(v, rest); Text.ReplacePast(v[0], v[1..], rest, pat, rep); }
      [v[0]] + (v[1..] + r);
    == { Text.ConsAppend(v, r); }
      v + r;
    }
  }

  /** The conditions under which every key in a template is found exactly
      where its slot is: all keys start with `mark` and hold it nowhere
      else, no key extends another, and neither the chunks nor the colours
      contain `mark`. */
  predicate KeysSeparate(keys: seq<string>, colours: seq<string>, pieces: seq<Piece>, mark: char)
  {
    && |keys| == |colours|
    && (forall j :: 0 <= j < |keys| ==> |keys[j]| > 0 && keys[j][0] == mark && mark !in keys[j][1..])
    && (forall j :: 0 <= j < |colours| ==> mark !in colours[j])
    && (forall i, j :: 0 <= i < |keys| && 0 <= j < |keys| && i != j ==> !Text.PrefixOf(keys[i], keys[j]))
    && (forall i :: 0 <= i < |pieces| ==> (pieces[i].Chunk? ==> mark !in pieces[i].text))
  }

  /** One replacement turns slot k's text into `rep` and leaves every other
      piece alone. */
  lemma {:induction false} ReplaceAssembled(pieces: seq<Piece>, vals: seq<string>, k: nat, rep: string, mark: char)
    requires k < |vals| && |vals[k]| > 0 && vals[k][0] == mark
    requires forall i :: 0 <= i < |pieces| ==> (pieces[i].Chunk? ==> mark !in pieces[i].text)
    requires forall j :: 0 <= j < |vals| && j != k ==> Inert(vals[j], vals[k], mark)
    ensures Text.Replace(Assemble(pieces, vals), vals[k], rep) == Assemble(pieces, vals[k := rep])
  {
    var pat := vals[k];
    if |pieces| > 0 {
      var head := PieceText(pieces[0], vals);
      var rest := Assemble(pieces[1..], vals);
      ReplaceAssembled(pieces[1..], vals, k, rep, mark);
      if pieces[0].Slot? && pieces[0].entry == k {
        Text.ReplaceHead(rest, pat, rep);
      } else {
        assert Inert(head, pat, mark);
        ReplaceInert(head, rest, pat, rep, mark);
      }
    }
  }

  /** The template text once the first k entries have been replaced. */
  function Partial(keys: seq<string>, colours: seq<string>, k: nat): (vals: seq<string>)
    requires |keys| == |colours|
    ensures |vals| == |keys|
  {
    seq(|keys|, j requires 0 <= j < |keys| => if j < k then colours[j] else keys[j])
  }

  /** One step of the loop: entry k's key is replaced by its colour. */
  lemma FillStep(keys: seq<string>, colours: seq<string>, pieces: seq<Piece>, mark: char, k: nat)
    requires KeysSeparate(keys, colours, pieces, mark) && k < |keys|
    ensures Text.Replace(Assemble(pieces, Partial(keys, colours, k)), keys[k], colours[k])
      == Assemble(pieces, Partial(keys, colours, k + 1))
  {
    var vals := Partial(keys, colours, k);
    forall j | 0 <= j < |vals| && j != k
      ensures Inert(vals[j], vals[k], mark)
    {
      if j < k {
        assert mark !in colours[j];
      } else {
        assert !Text.PrefixOf(keys[j], keys[k]) && !Text.PrefixOf(keys[k], keys[j]);
      }
    }
    ReplaceAssembled(pieces, vals, k, colours[k], mark);
    assert vals[k := colours[k]] == Partial(keys, colours, k + 1);
  }

  /** The loop from entry k on finishes the substitution. */
  lemma {:induction false} FillFrom(entries: seq<(string, string)>, syntax: string, pieces: seq<Piece>, mark: char, k: nat)
    requires KeysSeparate(Keys(entries, syntax), Colours(entries), pieces, mark) && k <= |entries|
    ensures FillTemplate(entries[k..], syntax, Assemble(pieces, Partial(Keys(entries, syntax), Colours(entries), k)))
      == Assemble(pieces, Colours(entries))
    decreases |entries| - k
  {
    var keys, colours := Keys(entries, syntax), Colours(entries);
    if k == |entries| {
      assert Partial(keys, colours, k) == colours;
    } else {
      FillStep(keys, colours, pieces, mark, k);
      FillFrom(entries, syntax, pieces, mark, k + 1);
      assert entries[k..][0] == entries[k] && entries[k..][1..] == entries[k + 1..];
    }
  }

  /** `compile_template` puts every entry's colour where its key stands and
      leaves the rest of the template alone, provided the keys can be told
      apart from each other and from the surrounding text. */
  lemma TemplateSubstitutes(named: Dict.Dict<string, Rgb>, syntax: string, pieces: seq<Piece>, fmt: string,
                            remap: Option<Dict.Dict<string, Remap>>, showFloat: real -> string, mark: char)
    requires Entries(named, fmt, remap, showFloat).Ok?
    requires var e := Entries(named, fmt, remap, showFloat).value;
      KeysSeparate(Keys(e, syntax), Colours(e), pieces, mark)
    ensures var e := Entries(named, fmt, remap, showFloat).value;
      CompileTemplate(named, syntax, Assemble(pieces, Keys(e, syntax)), fmt, remap, showFloat)
        == Ok(Assemble(pieces, Colours(e)))
  {
    var e := Entries(named, fmt, remap, showFloat).value;
    FillFrom(e, syntax, pieces, mark, 0);
    assert Partial(Keys(e, syntax), Colours(e), 0) == Keys(e, syntax);
    assert e[0..] == e;
  }
}
