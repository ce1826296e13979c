/** Terminal theming by escape sequences. A terminal's background,
    foreground and cursor colours and its sixteen palette entries are set by
    the OSC requests 11, 10, 12 and 4 of the "Operating System Commands"
    section of XTerm Control Sequences, each written as ESC ] code ; colour
    BEL. The program builds a string-keyed terminal theme in one of two
    styles and turns it into that request string. */
module TtyReload {
  import opened Wrappers
  import opened Colors
  import Text
  import Dict
  import Select
  import Gamma
  import ColorAssign
  import AssignAnsi

  /** The terminal theme: `dict[str, RGB]` keyed by "background",
      "foreground", "cursor" and "ansi-<i>". */
  type TtyTheme = Dict.Dict<string, Rgb>

  const Bel: char := 7 as char

  /** The key of palette entry i, `f"ansi-{i}"`. */
  function AnsiName(i: nat): string
  {
    ColorAssign.KeyName(ColorAssign.Ansi(i))
  }

  // ---------------------------------------------------------------------
  // The request string
  // ---------------------------------------------------------------------

  /** What one OSC request sets. */
  datatype Target = Background | Foreground | Cursor | Palette(index: nat)

  datatype Request = Request(target: Target, color: Rgb)

  /** The OSC parameter that selects a target. */
  function Code(t: Target): string
  {
    match t
    case Background => "11"
    case Foreground => "10"
    case Cursor => "12"
    case Palette(i) => "4;" + Text.Decimal(i)
  }

  /** `\033]<code>;<hex>\007`. */
  function Osc(q: Request): string
  {
    [Text.Esc, ']'] + Code(q.target) + ";" + Hex(q.color) + [Bel]
  }

  /** The requests written one after another. */
  function Emit(qs: seq<Request>): string
  {
    if |qs| == 0 then "" else Osc(qs[0]) + Emit(qs[1..])
  }

  /** The colour the theme asks for a target, if any: the cursor falls back
      to the foreground, and only palette entries 0..15 are looked at. */
  function Wanted(theme: TtyTheme, t: Target): Option<Rgb>
  {
    match t
    case Background => Dict.Get(theme, "background")
    case Foreground => Dict.Get(theme, "foreground")
    case Cursor =>
      if Dict.HasKey(theme, "cursor") then Dict.Get(theme, "cursor") else Dict.Get(theme, "foreground")
    case Palette(i) => if i < 16 then Dict.Get(theme, AnsiName(i)) else None
  }

  /** The order requests are written in. */
  function Rank(t: Target): nat
  {
    match t
    case Background => 0
    case Foreground => 1
    case Cursor => 2
    case Palette(i) => 3 + i
  }

  function PaletteTargets(n: nat): (ts: seq<Target>)
    ensures |ts| == n && forall i :: 0 <= i < n ==> ts[i] == Palette(i)
  {
    if n == 0 then [] else PaletteTargets(n - 1) + [Palette(n - 1)]
  }

  /** The targets in the order the program visits them. */
  function AllTargets(): (ts: seq<Target>)
    ensures |ts| == 19 && forall j :: 0 <= j < 19 ==> Rank(ts[j]) == j
  {
    [Background, Foreground, Cursor] + PaletteTargets(16)
  }

  /** One request per visited target whose key is present. */
  function Collect(theme: TtyTheme, ts: seq<Target>): seq<Request>
  {
    if |ts| == 0 then []
    else
      var head := match Wanted(theme, ts[0]) case Some(c) => [Request(ts[0], c)] case None => [];
      head + Collect(theme, ts[1..])
  }

  function Requests(theme: TtyTheme): seq<Request>
  {
    Collect(theme, AllTargets())
  }

  /** `tty_color_sequence`. */
  function TtyColorSequence(theme: TtyTheme): string
  {
    Emit(Requests(theme))
  }

  // ---------------------------------------------------------------------
  // Reading a request string back
  // ---------------------------------------------------------------------

  /** Index of the first BEL, or |s| when there is none. */
  function FirstBel(s: string): (k: nat)
    ensures k <= |s|
    ensures forall j :: 0 <= j < k ==> s[j] != Bel
    ensures k < |s| ==> s[k] == Bel
  {
    if |s| == 0 || s[0] == Bel then 0 else 1 + FirstBel(s[1..])
  }

  predicate AllDigits(s: string)
  {
    forall i :: 0 <= i < |s| ==> '0' <= s[i] <= '9'
  }

  function DecodeTarget(code: string): Option<Target>
  {
    if code == "11" then Some(Background)
    else if code == "10" then Some(Foreground)
    else if code == "12" then Some(Cursor)
    else if |code| > 2 && code[..2] == "4;" && AllDigits(code[2..]) && Text.DecimalValue(code[2..]) >= 0 then
      Some(Palette(Text.DecimalValue(code[2..])))
    else None
  }

  /** One request without its BEL: ESC ] code ; # rr gg bb. */
  function DecodeRequest(body: string): Option<Request>
  {
    if |body| < 10 || body[0] != Text.Esc || body[1] != ']' || body[|body| - 8] != ';' || body[|body| - 7] != '#' then None
    else
      var hex := body[|body| - 7..];
      var r := Text.HexValue(hex[1..3]);
      var g := Text.HexValue(hex[3..5]);
      var b := Text.HexValue(hex[5..7]);
      match DecodeTarget(body[2..|body| - 8])
      case None => None
      case Some(t) =>
        if 0 <= r <= 255 && 0 <= g <= 255 && 0 <= b <= 255 then Some(Request(t, Rgb(r, g, b))) else None
  }

  /** Splits a string at each BEL and decodes the pieces. */
  function ParseSequence(s: string): Option<seq<Request>>
    decreases |s|
  {
    if |s| == 0 then Some([])
    else
      var k := FirstBel(s);
      if k == |s| then None
      else
        match DecodeRequest(s[..k])
        case None => None
        case Some(q) =>
          match ParseSequence(s[k + 1..])
          case None => None
          case Some(rest) => Some([q] + rest)
  }

  /** A target's code is at least two characters, none of them BEL. */
  lemma CodeAlphabet(t: Target)
    ensures |Code(t)| >= 2 && Bel !in Code(t)
  {
    if t.Palette? {
      var digits := Text.DecimalDigits(t.index);
      assert Code(t) == "4;" + digits;
      assert Bel !in digits by {
        forall k | 0 <= k < |digits|
          ensures digits[k] != Bel
        {
          assert '0' <= digits[k] <= '9';
        }
      }
    }
  }

  lemma CodeRoundTrip(t: Target)
    ensures DecodeTarget(Code(t)) == Some(t)
  {
    if t.Palette? {
      var i := t.index;
      var code := Code(t);
      assert Text.Decimal(i) == Text.DecimalDigits(i);
      assert code[2..] == Text.DecimalDigits(i);
      assert code[..2] == "4;";
      Text.DecimalDigitsRoundTrip(i);
      assert code != "11" && code != "10" && code != "12" by {
        assert |code| > 2;
      }
    }
  }

  /** A request reads back as itself, and its only BEL is the last
      character. */
  lemma OscRoundTrip(q: Request)
    ensures var o := Osc(q);
      && |o| >= 11 && o[|o| - 1] == Bel
      && (forall k :: 0 <= k < |o| - 1 ==> o[k] != Bel)
      && DecodeRequest(o[..|o| - 1]) == Some(q)
  {
    OscNoBel(q);
    OscDecodes(q);
  }

  /** A colour's hex text holds no BEL. */
  lemma HexNoBel(c: Rgb)
    ensures Bel !in Hex(c)
  {
    HexAlphabet(c);
    var hex := Hex(c);
    forall k | 0 <= k < |hex|
      ensures hex[k] != Bel
    {
      assert hex[k] == '#' || hex[k] in Text.LowerDigits;
    }
  }

  /** The only BEL in a request's sequence is its terminator. */
  lemma OscNoBel(q: Request)
    ensures var o := Osc(q);
      && |o| >= 11 && o[|o| - 1] == Bel
      && forall k :: 0 <= k < |o| - 1 ==> o[k] != Bel
  {
    var o := Osc(q);
    var code := Code(q.target);
    var hex := Hex(q.color);
    CodeAlphabet(q.target);
    HexNoBel(q.color);
    var body := [Text.Esc, ']'] + code + ";" + hex;
    assert Bel !in body;
    assert o == body + [Bel];
    forall k | 0 <= k < |o| - 1
      ensures o[k] != Bel
    {
      assert o[k] == body[k];
    }
  }

  /** The body before the BEL reads back as the request. */
  lemma OscDecodes(q: Request)
    ensures |Osc(q)| >= 1 && DecodeRequest(Osc(q)[..|Osc(q)| - 1]) == Some(q)
  {
    var o := Osc(q);
    var body := [Text.Esc, ']'] + Code(q.target) + ";" + Hex(q.color);
    assert o == body + [Bel];
    assert o[..|o| - 1] == body;
    CodeRoundTrip(q.target);
    HexRoundTrip(q.color);
    DecodeBody(Code(q.target), Hex(q.color), q);
  }

  /** A body assembled from a code and a hex string that each read back
      decodes to the request they came from. */
  lemma DecodeBody(code: string, hex: string, q: Request)
    requires DecodeTarget(code) == Some(q.target) && |code| >= 2
    requires |hex| == 7 && hex[0] == '#'
    requires Text.HexValue(hex[1..3]) == q.color.r
    requires Text.HexValue(hex[3..5]) == q.color.g
    requires Text.HexValue(hex[5..7]) == q.color.b
    ensures DecodeRequest([Text.Esc, ']'] + code + ";" + hex) == Some(q)
  {
    var body := [Text.Esc, ']'] + code + ";" + hex;
    assert body[|body| - 7..] == hex;
    assert body[2..|body| - 8] == code;
  }

  /** A decodable piece ending in its only BEL is split off and read. */
  lemma ParseStep(o: string, q: Request, rest: string)
    requires |o| >= 1 && o[|o| - 1] == Bel
    requires forall k :: 0 <= k < |o| - 1 ==> o[k] != Bel
    requires DecodeRequest(o[..|o| - 1]) == Some(q)
    ensures ParseSequence(o + rest) ==
      match ParseSequence(rest) case None => None case Some(qs) => Some([q] + qs)
  {
    var s := o + rest;
    var k := FirstBel(s);
    assert forall j :: 0 <= j < |o| ==> s[j] == o[j];
    assert k == |o| - 1;
    assert s[..k] == o[..|o| - 1];
    assert s[k + 1..] == rest;
  }

  /** Reading the emitted string gives back the requests. */
  lemma {:induction false} ParseEmit(qs: seq<Request>)
    ensures ParseSequence(Emit(qs)) == Some(qs)
  {
    if |qs| > 0 {
      OscRoundTrip(qs[0]);
      assert Emit(qs) == Osc(qs[0]) + Emit(qs[1..]);
      ParseStep(Osc(qs[0]), qs[0], Emit(qs[1..]));
      ParseEmit(qs[1..]);
      assert [qs[0]] + qs[1..] == qs;
    }
  }

  /** The sequence the program writes reads back as the theme's requests. */
  lemma SequenceRoundTrip(theme: TtyTheme)
    ensures ParseSequence(TtyColorSequence(theme)) == Some(Requests(theme))
  {
    ParseEmit(Requests(theme));
  }

  // ---------------------------------------------------------------------
  // What the requests are
  // ---------------------------------------------------------------------

  predicate RankIncreasing(ts: seq<Target>)
  {
    forall j, k :: 0 <= j < k < |ts| ==> Rank(ts[j]) < Rank(ts[k])
  }

  lemma {:induction false} CollectSpec(theme: TtyTheme, ts: seq<Target>)
    requires RankIncreasing(ts)
    ensures var r := Collect(theme, ts);
      && (forall j, k :: 0 <= j < k < |r| ==> Rank(r[j].target) < Rank(r[k].target))
      && (forall j :: 0 <= j < |r| ==> Rank(ts[0]) <= Rank(r[j].target))
      && (forall j :: 0 <= j < |r| ==> Wanted(theme, r[j].target) == Some(r[j].color))
      && (forall j :: 0 <= j < |ts| && Wanted(theme, ts[j]).Some? ==> Request(ts[j], Wanted(theme, ts[j]).value) in r)
  {
    if |ts| > 0 {
      var tail := ts[1..];
      assert RankIncreasing(tail) by {
        forall j, k | 0 <= j < k < |tail|
          ensures Rank(tail[j]) < Rank(tail[k])
        {
          assert tail[j] == ts[j + 1] && tail[k] == ts[k + 1];
        }
      }
      CollectSpec(theme, tail);
      forall j | 1 <= j < |ts|
        ensures ts[j] == tail[j - 1]
      {
      }
    }
  }

  /** `tty_color_sequence` emits OSC 11, 10, 12 and then 4 for palette
      entries 0 to 15 in that order, one request per present key and nothing
      for an absent one; the cursor request takes the foreground colour
      when there is no cursor key. */
  lemma RequestsSpec(theme: TtyTheme)
    ensures var r := Requests(theme);
      && (forall j, k :: 0 <= j < k < |r| ==> Rank(r[j].target) < Rank(r[k].target))
      && (forall j :: 0 <= j < |r| ==> Wanted(theme, r[j].target) == Some(r[j].color))
      && (forall t :: Wanted(theme, t).Some? ==> Request(t, Wanted(theme, t).value) in r)
  {
    var ts := AllTargets();
    CollectSpec(theme, ts);
    forall t | Wanted(theme, t).Some?
      ensures t in ts
    {
      assert ts[Rank(t)] == t;
    }
  }

  lemma EmitEmpty(qs: seq<Request>)
    ensures Emit(qs) == "" <==> qs == []
  {
    if qs != [] {
      OscRoundTrip(qs[0]);
    }
  }

  /** No request at all exactly when no target is wanted. */
  lemma RequestsEmpty(theme: TtyTheme)
    ensures Requests(theme) == [] <==> forall t :: Wanted(theme, t).None?
  {
    var r := Requests(theme);
    RequestsSpec(theme);
    if r != [] {
      assert Wanted(theme, r[0].target).Some?;
    }
  }

  /** No target is wanted exactly when none of the nineteen keys is
      present. */
  lemma NothingWanted(theme: TtyTheme)
    ensures (forall t :: Wanted(theme, t).None?) <==>
      !Dict.HasKey(theme, "background") && !Dict.HasKey(theme, "foreground") && !Dict.HasKey(theme, "cursor")
      && forall i :: 0 <= i < 16 ==> !Dict.HasKey(theme, AnsiName(i))
  {
    if forall t :: Wanted(theme, t).None? {
      assert Wanted(theme, Background).None? && Wanted(theme, Foreground).None? && Wanted(theme, Cursor).None?;
      forall i | 0 <= i < 16
        ensures !Dict.HasKey(theme, AnsiName(i))
      {
        assert Wanted(theme, Palette(i)).None?;
      }
    }
  }

  /** The request string is empty exactly when the theme has none of the
      keys the program looks at; in particular an empty theme gives "". */
  lemma EmptySequence(theme: TtyTheme)
    ensures TtyColorSequence(theme) == "" <==>
      !Dict.HasKey(theme, "background") && !Dict.HasKey(theme, "foreground") && !Dict.HasKey(theme, "cursor")
      && forall i :: 0 <= i < 16 ==> !Dict.HasKey(theme, AnsiName(i))
  {
    EmitEmpty(Requests(theme));
    RequestsEmpty(theme);
    NothingWanted(theme);
  }

  /** A visited target whose key is present gives exactly one request. */
  lemma {:induction false} CollectFull(theme: TtyTheme, ts: seq<Target>)
    requires forall j :: 0 <= j < |ts| ==> Wanted(theme, ts[j]).Some?
    ensures |Collect(theme, ts)| == |ts|
    ensures forall j :: 0 <= j < |ts| ==> Collect(theme, ts)[j] == Request(ts[j], Wanted(theme, ts[j]).value)
  {
    if |ts| > 0 {
      CollectFull(theme, ts[1..]);
    }
  }

  /** A theme with all nineteen keys sets every target, in order. */
  predicate Complete(theme: TtyTheme)
  {
    Dict.HasKey(theme, "background") && Dict.HasKey(theme, "foreground")
    && forall i :: 0 <= i < 16 ==> Dict.HasKey(theme, AnsiName(i))
  }

  lemma CompleteRequests(theme: TtyTheme)
    requires Complete(theme)
    ensures var r := Requests(theme);
      && |r| == 19
      && forall j :: 0 <= j < 19 ==> r[j].target == AllTargets()[j] && Some(r[j].color) == Wanted(theme, r[j].target)
  {
    var ts := AllTargets();
    forall j | 0 <= j < |ts|
      ensures Wanted(theme, ts[j]).Some?
    {
      if j >= 3 {
        assert ts[j] == Palette(j - 3);
      }
    }
    CollectFull(theme, ts);
  }

  // ---------------------------------------------------------------------
  // The pywal style
  // ---------------------------------------------------------------------

  /** r² + g² + b², the order ImageMagick lists colours in. */
  function SquareSum(c: ColorData): int
  {
    c.rgb.r * c.rgb.r + c.rgb.g * c.rgb.g + c.rgb.b * c.rgb.b
  }

  /** `color_data[:8]`, then `sort(key=r² + g² + b²)`, a stable ascending
      sort. */
  function PywalColors(colorData: seq<ColorData>): seq<ColorData>
  {
    var first := if |colorData| > 8 then colorData[..8] else colorData;
    Select.SortDown(first, (c: ColorData) => -(SquareSum(c) as real))
  }

  /** The first eight entries, ascending by r² + g² + b². */
  lemma PywalColorsSorted(colorData: seq<ColorData>)
    ensures var n := if |colorData| > 8 then 8 else |colorData|;
      var r := PywalColors(colorData);
      && |r| == n
      && multiset(r) == multiset(colorData[..n])
      && forall i, j :: 0 <= i < j < |r| ==> SquareSum(r[i]) <= SquareSum(r[j])
  {
    var n := if |colorData| > 8 then 8 else |colorData|;
    var first := if |colorData| > 8 then colorData[..8] else colorData;
    assert first == colorData[..n];
    var key := (c: ColorData) => -(SquareSum(c) as real);
    Select.SortDownCorrect(first, key);
    var r := PywalColors(colorData);
    forall i, j | 0 <= i < j < |r|
      ensures SquareSum(r[i]) <= SquareSum(r[j])
    {
      assert key(r[j]) <= key(r[i]);
    }
  }

  /** `list.sort` is stable: the colours with any one value of
      r² + g² + b² keep the order they had among the first eight. */
  lemma PywalColorsStable(colorData: seq<ColorData>, sum: int)
    ensures var n := if |colorData| > 8 then 8 else |colorData|;
      Select.Filter(PywalColors(colorData), (c: ColorData) => SquareSum(c) == sum)
      == Select.Filter(colorData[..n], (c: ColorData) => SquareSum(c) == sum)
  {
    var n := if |colorData| > 8 then 8 else |colorData|;
    var first := if |colorData| > 8 then colorData[..8] else colorData;
    assert first == colorData[..n];
    var key := (c: ColorData) => -(SquareSum(c) as real);
    var p := (c: ColorData) => SquareSum(c) == sum;
    assert Select.OneKey(p, key);
    Select.SortDownStable(first, key, p);
  }

  function Colours(cs: seq<ColorData>): (rs: seq<Rgb>)
    ensures |rs| == |cs| && forall i :: 0 <= i < |cs| ==> rs[i] == cs[i].rgb
  {
    seq(|cs|, i requires 0 <= i < |cs| => cs[i].rgb)
  }

  /** The colour the two palette loops give entry i: colors[i] for the
      normal half and colors[i - 8] for the bright half. */
  function PaletteSource(colors: seq<Rgb>, i: nat): Rgb
    requires |colors| >= 8 && i < 16
  {
    if i < 8 then colors[i] else colors[i - 8]
  }

  /** `tty_theme[f"ansi-{i}"] = ...` for i in 0..n-1. */
  function WithPalette(d: TtyTheme, colors: seq<Rgb>, n: nat): TtyTheme
    requires |colors| >= 8 && n <= 16
  {
    if n == 0 then d else Dict.Put(WithPalette(d, colors, n - 1), AnsiName(n - 1), PaletteSource(colors, n - 1))
  }

  function PaletteEntries(colors: seq<Rgb>, n: nat): (es: TtyTheme)
    requires |colors| >= 8 && n <= 16
    ensures |es| == n && forall i :: 0 <= i < n ==> es[i] == (AnsiName(i), PaletteSource(colors, i))
  {
    seq(n, i requires 0 <= i < n => (AnsiName(i), PaletteSource(colors, i)))
  }

  lemma AnsiNameDistinct(i: nat, j: nat)
    requires i != j
    ensures AnsiName(i) != AnsiName(j)
  {
    if AnsiName(i) == AnsiName(j) {
      ColorAssign.AnsiNameInjective(i, j);
    }
  }

  /** No palette key is one of the three named keys. */
  lemma AnsiNameNotNamed(i: nat)
    ensures AnsiName(i) != "background" && AnsiName(i) != "foreground" && AnsiName(i) != "cursor"
  {
    ColorAssign.AnsiNameShape(i);
  }

  /** One more palette entry goes on the end. */
  lemma PaletteEntriesSnoc(colors: seq<Rgb>, m: nat)
    requires |colors| >= 8 && m < 16
    ensures PaletteEntries(colors, m + 1) == PaletteEntries(colors, m) + [(AnsiName(m), PaletteSource(colors, m))]
  {
    var a := PaletteEntries(colors, m + 1);
    var b := PaletteEntries(colors, m) + [(AnsiName(m), PaletteSource(colors, m))];
    assert |a| == |b|;
    forall j | 0 <= j < |a|
      ensures a[j] == b[j]
    {
    }
  }

  /** The next palette key is not yet among those written before it. */
  lemma PaletteFresh(d: TtyTheme, colors: seq<Rgb>, m: nat)
    requires |colors| >= 8 && m < 16
    requires forall i :: 0 <= i < 16 ==> !Dict.HasKey(d, AnsiName(i))
    ensures !Dict.HasKey(d + PaletteEntries(colors, m), AnsiName(m))
  {
    var entries := PaletteEntries(colors, m);
    var prev := d + entries;
    var k := AnsiName(m);
    assert !Dict.HasKey(d, k);
    forall j | 0 <= j < |prev|
      ensures prev[j].0 != k
    {
      if j < |d| {
        assert prev[j] == d[j];
      } else {
        assert prev[j] == entries[j - |d|];
        AnsiNameDistinct(j - |d|, m);
      }
    }
  }

  /** Writing fresh palette keys appends them in index order. */
  lemma {:induction false} WithPaletteAppends(d: TtyTheme, colors: seq<Rgb>, n: nat)
    requires |colors| >= 8 && n <= 16
    requires forall i :: 0 <= i < 16 ==> !Dict.HasKey(d, AnsiName(i))
    ensures WithPalette(d, colors, n) == d + PaletteEntries(colors, n)
  {
    if n > 0 {
      WithPaletteAppends(d, colors, n - 1);
      var prev := d + PaletteEntries(colors, n - 1);
      var k := AnsiName(n - 1);
      PaletteFresh(d, colors, n - 1);
      var e := (k, PaletteSource(colors, n - 1));
      Dict.PutFresh(prev, k, e.1);
      PaletteEntriesSnoc(colors, n - 1);
      assert prev + [e] == d + (PaletteEntries(colors, n - 1) + [e]);
    }
  }

  /** `tty_colors_pywal`: background, foreground and cursor from the
      primary background, text and accent roles; the (sorted) colours in
      both halves of the palette; then entries 0, 7, 8 and 15 overridden. */
  function TtyColorsPywal(roles: ColorAssign.ThemeDict, colorData: seq<ColorData>): Result<TtyTheme>
  {
    var colors := Colours(PywalColors(colorData));
    var bg :- ColorAssign.Need(roles, ColorAssign.Role("bg-primary"));
    var fg :- ColorAssign.Need(roles, ColorAssign.Role("text-primary"));
    var cursor :- ColorAssign.Need(roles, ColorAssign.Role("accent-primary"));
    if |colors| < 8 then Err(IndexError)
    else
      var d := WithPalette(Named(bg, fg, cursor), colors, 16);
      var d := Dict.Put(Dict.Put(d, AnsiName(0), bg), AnsiName(7), fg);
      var bg2 :- ColorAssign.Need(roles, ColorAssign.Role("bg-secondary"));
      Ok(Dict.Put(Dict.Put(d, AnsiName(8), bg2), AnsiName(15), fg))
  }

  function RoleColour(roles: ColorAssign.ThemeDict, name: string): Option<Rgb>
  {
    Dict.Get(roles, ColorAssign.Role(name))
  }

  /** The pywal theme exists exactly when the four roles it reads are
      present and there are at least eight colours; otherwise the first
      failing lookup's error. */
  lemma PywalOutcome(roles: ColorAssign.ThemeDict, colorData: seq<ColorData>)
    ensures var r := TtyColorsPywal(roles, colorData);
      var has := (name: string) => Dict.HasKey(roles, ColorAssign.Role(name));
      && (r.Ok? <==> has("bg-primary") && has("text-primary") && has("accent-primary") && has("bg-secondary") && |colorData| >= 8)
      && (!has("bg-primary") ==> r == Err(KeyError("bg-primary")))
      && (has("bg-primary") && !has("text-primary") ==> r == Err(KeyError("text-primary")))
      && (has("bg-primary") && has("text-primary") && !has("accent-primary") ==> r == Err(KeyError("accent-primary")))
      && (has("bg-primary") && has("text-primary") && has("accent-primary") && |colorData| < 8 ==> r == Err(IndexError))
      && (has("bg-primary") && has("text-primary") && has("accent-primary") && |colorData| >= 8 && !has("bg-secondary") ==> r == Err(KeyError("bg-secondary")))
  {
    PywalColorsSorted(colorData);
  }

  lemma BaseHasNoPalette(bg: Rgb, fg: Rgb, cursor: Rgb, i: nat)
    ensures !Dict.HasKey(Named(bg, fg, cursor), AnsiName(i))
  {
    AnsiNameNotNamed(i);
  }

  lemma PaletteDistinct(colors: seq<Rgb>, n: nat)
    requires |colors| >= 8 && n <= 16
    ensures Dict.DistinctKeys(PaletteEntries(colors, n))
  {
    var es := PaletteEntries(colors, n);
    forall j, k | 0 <= j < k < n
      ensures es[j].0 != es[k].0
    {
      AnsiNameDistinct(j, k);
    }
  }

  lemma BasePaletteDistinct(bg: Rgb, fg: Rgb, cursor: Rgb, colors: seq<Rgb>)
    requires |colors| >= 8
    ensures Dict.DistinctKeys(Named(bg, fg, cursor) + PaletteEntries(colors, 16))
  {
    var base := Named(bg, fg, cursor);
    var es := PaletteEntries(colors, 16);
    PaletteDistinct(colors, 16);
    var d := base + es;
    forall j, k | 0 <= j < k < |d|
      ensures d[j].0 != d[k].0
    {
      if k >= 3 {
        assert d[k] == es[k - 3];
        if j >= 3 {
          assert d[j] == es[j - 3];
        } else {
          AnsiNameNotNamed(k - 3);
        }
      }
    }
  }

  /** The base the palette loops write into, before the overrides. */
  lemma PywalBase(bg: Rgb, fg: Rgb, cursor: Rgb, colors: seq<Rgb>)
    requires |colors| >= 8
    ensures var base := Named(bg, fg, cursor);
      var d := WithPalette(base, colors, 16);
      && d == base + PaletteEntries(colors, 16)
      && Dict.DistinctKeys(d)
  {
    var base := Named(bg, fg, cursor);
    forall i | 0 <= i < 16
      ensures !Dict.HasKey(base, AnsiName(i))
    {
      BaseHasNoPalette(bg, fg, cursor, i);
    }
    WithPaletteAppends(base, colors, 16);
    BasePaletteDistinct(bg, fg, cursor, colors);
  }

  /** The three named entries, in the order both styles first write them. */
  function Named(bg: Rgb, fg: Rgb, cursor: Rgb): TtyTheme
  {
    [("background", bg), ("foreground", fg), ("cursor", cursor)]
  }

  /** The nineteen keys of both styles' themes. */
  function NamedKeys(): seq<string>
  {
    ["background", "foreground", "cursor"]
  }

  function PaletteKeys(): (ks: seq<string>)
    ensures |ks| == 16 && forall i :: 0 <= i < 16 ==> ks[i] == AnsiName(i)
  {
    seq(16, i requires 0 <= i < 16 => AnsiName(i))
  }

  /** The four overriding assignments of the pywal style. */
  function Overridden(d: TtyTheme, bg: Rgb, fg: Rgb, bg2: Rgb): TtyTheme
  {
    Dict.Put(Dict.Put(Dict.Put(Dict.Put(d, AnsiName(0), bg), AnsiName(7), fg), AnsiName(8), bg2), AnsiName(15), fg)
  }

  /** The pywal theme is the three named entries, the two palette halves,
      and the overrides. */
  lemma PywalIs(roles: ColorAssign.ThemeDict, colorData: seq<ColorData>)
    requires TtyColorsPywal(roles, colorData).Ok?
    ensures |Colours(PywalColors(colorData))| >= 8
    ensures RoleColour(roles, "bg-primary").Some? && RoleColour(roles, "text-primary").Some?
    ensures RoleColour(roles, "accent-primary").Some? && RoleColour(roles, "bg-secondary").Some?
    ensures var bg := RoleColour(roles, "bg-primary").value;
      var fg := RoleColour(roles, "text-primary").value;
      var cursor := RoleColour(roles, "accent-primary").value;
      var bg2 := RoleColour(roles, "bg-secondary").value;
      TtyColorsPywal(roles, colorData).value == Overridden(Named(bg, fg, cursor) + PaletteEntries(Colours(PywalColors(colorData)), 16), bg, fg, bg2)
  {
    PywalOutcome(roles, colorData);
    PywalColorsSorted(colorData);
    var colors := Colours(PywalColors(colorData));
    var bg := RoleColour(roles, "bg-primary").value;
    var fg := RoleColour(roles, "text-primary").value;
    var cursor := RoleColour(roles, "accent-primary").value;
    PywalBase(bg, fg, cursor, colors);
  }

  /** Assigning a key changes what that key reads and nothing else. */
  lemma Reassign(d: TtyTheme, k: string, v: Rgb, k': string)
    ensures var r := Dict.Put(d, k, v);
      && (Dict.HasKey(r, k') <==> Dict.HasKey(d, k') || k' == k)
      && Dict.Get(r, k') == if k' == k then Some(v) else Dict.Get(d, k')
  {
    Dict.PutHasKey(d, k, v, k');
  }

  /** Assigning a present key keeps the key list. */
  lemma ReassignKeys(d: TtyTheme, k: string, v: Rgb)
    requires Dict.HasKey(d, k)
    ensures Dict.Keys(Dict.Put(d, k, v)) == Dict.Keys(d)
    ensures Dict.DistinctKeys(d) ==> Dict.DistinctKeys(Dict.Put(d, k, v))
  {
  }

  /** Four assignments to present keys keep the key list. */
  lemma ReassignFourKeys(d: TtyTheme, k1: string, v1: Rgb, k2: string, v2: Rgb, k3: string, v3: Rgb, k4: string, v4: Rgb)
    requires Dict.HasKey(d, k1) && Dict.HasKey(d, k2) && Dict.HasKey(d, k3) && Dict.HasKey(d, k4)
    ensures var r := Dict.Put(Dict.Put(Dict.Put(Dict.Put(d, k1, v1), k2, v2), k3, v3), k4, v4);
      && Dict.Keys(r) == Dict.Keys(d)
      && (Dict.DistinctKeys(d) ==> Dict.DistinctKeys(r))
  {
    var d1 := Dict.Put(d, k1, v1);
    var d2 := Dict.Put(d1, k2, v2);
    var d3 := Dict.Put(d2, k3, v3);
    Reassign(d, k1, v1, k2);
    Reassign(d, k1, v1, k3);
    Reassign(d, k1, v1, k4);
    Reassign(d1, k2, v2, k3);
    Reassign(d1, k2, v2, k4);
    Reassign(d2, k3, v3, k4);
    ReassignKeys(d, k1, v1);
    ReassignKeys(d1, k2, v2);
    ReassignKeys(d2, k3, v3);
    ReassignKeys(d3, k4, v4);
  }

  /** Four assignments to pairwise different keys: each reads its value,
      every other key reads as before. */
  lemma ReassignFour(d: TtyTheme, k1: string, v1: Rgb, k2: string, v2: Rgb, k3: string, v3: Rgb, k4: string, v4: Rgb)
    requires k1 != k2 && k1 != k3 && k1 != k4 && k2 != k3 && k2 != k4 && k3 != k4
    ensures var r := Dict.Put(Dict.Put(Dict.Put(Dict.Put(d, k1, v1), k2, v2), k3, v3), k4, v4);
      && Dict.Get(r, k1) == Some(v1) && Dict.Get(r, k2) == Some(v2)
      && Dict.Get(r, k3) == Some(v3) && Dict.Get(r, k4) == Some(v4)
      && forall k :: k != k1 && k != k2 && k != k3 && k != k4 ==> Dict.Get(r, k) == Dict.Get(d, k)
  {
    var d1 := Dict.Put(d, k1, v1);
    var d2 := Dict.Put(d1, k2, v2);
    var d3 := Dict.Put(d2, k3, v3);
    var r := Dict.Put(d3, k4, v4);
    forall k
      ensures Dict.Get(r, k) == if k == k4 then Some(v4) else if k == k3 then Some(v3)
        else if k == k2 then Some(v2) else if k == k1 then Some(v1) else Dict.Get(d, k)
    {
      Reassign(d, k1, v1, k);
      Reassign(d1, k2, v2, k);
      Reassign(d2, k3, v3, k);
      Reassign(d3, k4, v4, k);
    }
  }

  /** Keys a dict keeps under the overrides, and what they then hold. */
  lemma OverriddenLayout(d: TtyTheme, bg: Rgb, fg: Rgb, bg2: Rgb)
    requires Dict.HasKey(d, AnsiName(0)) && Dict.HasKey(d, AnsiName(7))
    requires Dict.HasKey(d, AnsiName(8)) && Dict.HasKey(d, AnsiName(15))
    ensures var r := Overridden(d, bg, fg, bg2);
      && Dict.Keys(r) == Dict.Keys(d)
      && (Dict.DistinctKeys(d) ==> Dict.DistinctKeys(r))
      && Dict.Get(r, AnsiName(0)) == Some(bg)
      && Dict.Get(r, AnsiName(7)) == Some(fg)
      && Dict.Get(r, AnsiName(8)) == Some(bg2)
      && Dict.Get(r, AnsiName(15)) == Some(fg)
      && forall k :: k != AnsiName(0) && k != AnsiName(7) && k != AnsiName(8) && k != AnsiName(15) ==>
           Dict.Get(r, k) == Dict.Get(d, k)
  {
    AnsiNameDistinct(0, 7);
    AnsiNameDistinct(0, 8);
    AnsiNameDistinct(0, 15);
    AnsiNameDistinct(7, 8);
    AnsiNameDistinct(7, 15);
    AnsiNameDistinct(8, 15);
    ReassignFour(d, AnsiName(0), bg, AnsiName(7), fg, AnsiName(8), bg2, AnsiName(15), fg);
    ReassignFourKeys(d, AnsiName(0), bg, AnsiName(7), fg, AnsiName(8), bg2, AnsiName(15), fg);
  }

  /** The dict the palette loops leave, looked up. */
  lemma NamedPaletteLookup(bg: Rgb, fg: Rgb, cursor: Rgb, colors: seq<Rgb>)
    requires |colors| >= 8
    ensures var d := Named(bg, fg, cursor) + PaletteEntries(colors, 16);
      && Dict.Keys(d) == NamedKeys() + PaletteKeys()
      && Dict.Get(d, "background") == Some(bg)
      && Dict.Get(d, "foreground") == Some(fg)
      && Dict.Get(d, "cursor") == Some(cursor)
      && forall i :: 0 <= i < 16 ==> Dict.Get(d, AnsiName(i)) == Some(PaletteSource(colors, i))
  {
    var d := Named(bg, fg, cursor) + PaletteEntries(colors, 16);
    BasePaletteDistinct(bg, fg, cursor, colors);
    assert Dict.Keys(d) == NamedKeys() + PaletteKeys();
    Dict.GetDistinct(d, 0);
    Dict.GetDistinct(d, 1);
    Dict.GetDistinct(d, 2);
    forall i | 0 <= i < 16
      ensures Dict.Get(d, AnsiName(i)) == Some(PaletteSource(colors, i))
    {
      Dict.GetDistinct(d, 3 + i);
    }
  }

  /** The keys of the pywal theme built from its ingredients. */
  lemma PywalThemeKeys(bg: Rgb, fg: Rgb, cursor: Rgb, bg2: Rgb, colors: seq<Rgb>)
    requires |colors| >= 8
    ensures var r := Overridden(Named(bg, fg, cursor) + PaletteEntries(colors, 16), bg, fg, bg2);
      && |r| == 19 && Dict.DistinctKeys(r)
      && Dict.Keys(r) == NamedKeys() + PaletteKeys()
  {
    var d := Named(bg, fg, cursor) + PaletteEntries(colors, 16);
    BasePaletteDistinct(bg, fg, cursor, colors);
    NamedPaletteLookup(bg, fg, cursor, colors);
    OverriddenLayout(d, bg, fg, bg2);
    var r := Overridden(d, bg, fg, bg2);
    assert |r| == |Dict.Keys(r)| == 19;
  }

  /** The overrides leave a palette slot other than 0, 7, 8 and 15 alone. */
  lemma OverriddenSlot(d: TtyTheme, bg: Rgb, fg: Rgb, bg2: Rgb, i: nat)
    requires 1 <= i < 7 || 9 <= i < 15
    requires Dict.HasKey(d, AnsiName(0)) && Dict.HasKey(d, AnsiName(7))
    requires Dict.HasKey(d, AnsiName(8)) && Dict.HasKey(d, AnsiName(15))
    ensures Dict.Get(Overridden(d, bg, fg, bg2), AnsiName(i)) == Dict.Get(d, AnsiName(i))
  {
    AnsiNameDistinct(i, 0);
    AnsiNameDistinct(i, 7);
    AnsiNameDistinct(i, 8);
    AnsiNameDistinct(i, 15);
    OverriddenLayout(d, bg, fg, bg2);
  }

  /** Over any dict whose sixteen palette slots hold the palette loops'
      colours, the overrides leave slots 1..6 and 9..14 alone. */
  lemma OverriddenSlots(d: TtyTheme, bg: Rgb, fg: Rgb, bg2: Rgb, colors: seq<Rgb>)
    requires |colors| >= 8
    requires forall i :: 0 <= i < 16 ==> Dict.Get(d, AnsiName(i)) == Some(PaletteSource(colors, i))
    ensures forall i :: 1 <= i < 7 ==>
      Dict.Get(Overridden(d, bg, fg, bg2), AnsiName(i)) == Some(colors[i]) &&
      Dict.Get(Overridden(d, bg, fg, bg2), AnsiName(i + 8)) == Some(colors[i])
  {
    assert Dict.Get(d, AnsiName(0)).Some? && Dict.Get(d, AnsiName(7)).Some?;
    assert Dict.Get(d, AnsiName(8)).Some? && Dict.Get(d, AnsiName(15)).Some?;
    forall i | 1 <= i < 7
      ensures Dict.Get(Overridden(d, bg, fg, bg2), AnsiName(i)) == Some(colors[i])
      ensures Dict.Get(Overridden(d, bg, fg, bg2), AnsiName(i + 8)) == Some(colors[i])
    {
      OverriddenSlot(d, bg, fg, bg2, i);
      OverriddenSlot(d, bg, fg, bg2, i + 8);
    }
  }

  /** The overrides leave the background, foreground and cursor alone. */
  lemma OverriddenNamed(d: TtyTheme, bg: Rgb, fg: Rgb, bg2: Rgb, k: string)
    requires k == "background" || k == "foreground" || k == "cursor"
    requires Dict.HasKey(d, AnsiName(0)) && Dict.HasKey(d, AnsiName(7))
    requires Dict.HasKey(d, AnsiName(8)) && Dict.HasKey(d, AnsiName(15))
    ensures Dict.Get(Overridden(d, bg, fg, bg2), k) == Dict.Get(d, k)
  {
    AnsiNameNotNamed(0);
    AnsiNameNotNamed(7);
    AnsiNameNotNamed(8);
    AnsiNameNotNamed(15);
    OverriddenLayout(d, bg, fg, bg2);
  }

  /** The pywal theme's background, foreground and cursor. */
  lemma PywalThemeNamed(bg: Rgb, fg: Rgb, cursor: Rgb, bg2: Rgb, colors: seq<Rgb>)
    requires |colors| >= 8
    ensures var r := Overridden(Named(bg, fg, cursor) + PaletteEntries(colors, 16), bg, fg, bg2);
      && Dict.Get(r, "background") == Some(bg)
      && Dict.Get(r, "foreground") == Some(fg)
      && Dict.Get(r, "cursor") == Some(cursor)
  {
    var d := Named(bg, fg, cursor) + PaletteEntries(colors, 16);
    NamedPaletteLookup(bg, fg, cursor, colors);
    assert Dict.Get(d, AnsiName(0)).Some? && Dict.Get(d, AnsiName(7)).Some?;
    assert Dict.Get(d, AnsiName(8)).Some? && Dict.Get(d, AnsiName(15)).Some?;
    OverriddenNamed(d, bg, fg, bg2, "background");
    OverriddenNamed(d, bg, fg, bg2, "foreground");
    OverriddenNamed(d, bg, fg, bg2, "cursor");
  }

  /** The four palette slots the pywal style overrides. */
  lemma PywalThemeOverrides(bg: Rgb, fg: Rgb, cursor: Rgb, bg2: Rgb, colors: seq<Rgb>)
    requires |colors| >= 8
    ensures var r := Overridden(Named(bg, fg, cursor) + PaletteEntries(colors, 16), bg, fg, bg2);
      && Dict.Get(r, AnsiName(0)) == Some(bg)
      && Dict.Get(r, AnsiName(7)) == Some(fg)
      && Dict.Get(r, AnsiName(8)) == Some(bg2)
      && Dict.Get(r, AnsiName(15)) == Some(fg)
  {
    var d := Named(bg, fg, cursor) + PaletteEntries(colors, 16);
    NamedPaletteLookup(bg, fg, cursor, colors);
    OverriddenLayout(d, bg, fg, bg2);
  }

  /** The palette slots the overrides leave alone: slots i and i + 8 both
      take the i-th sorted colour. */
  lemma PywalThemeSlots(bg: Rgb, fg: Rgb, cursor: Rgb, bg2: Rgb, colors: seq<Rgb>)
    requires |colors| >= 8
    ensures var r := Overridden(Named(bg, fg, cursor) + PaletteEntries(colors, 16), bg, fg, bg2);
      forall i :: 1 <= i < 7 ==>
        Dict.Get(r, AnsiName(i)) == Some(colors[i]) && Dict.Get(r, AnsiName(i + 8)) == Some(colors[i])
  {
    NamedPaletteLookup(bg, fg, cursor, colors);
    OverriddenSlots(Named(bg, fg, cursor) + PaletteEntries(colors, 16), bg, fg, bg2, colors);
  }

  /** The pywal theme has exactly the nineteen keys, background first;
      entries 1..6 and their bright twins 9..14 both hold the i-th sorted
      colour; entry 0 is the primary background, 7 and 15 the primary text
      and 8 the secondary background. */
  lemma PywalLayout(roles: ColorAssign.ThemeDict, colorData: seq<ColorData>)
    requires TtyColorsPywal(roles, colorData).Ok?
    ensures var r := TtyColorsPywal(roles, colorData).value;
      var colors := Colours(PywalColors(colorData));
      && |colors| >= 8
      && |r| == 19 && Dict.DistinctKeys(r)
      && Dict.Keys(r) == NamedKeys() + PaletteKeys()
      && Dict.Get(r, "background") == RoleColour(roles, "bg-primary")
      && Dict.Get(r, "foreground") == RoleColour(roles, "text-primary")
      && Dict.Get(r, "cursor") == RoleColour(roles, "accent-primary")
      && Dict.Get(r, AnsiName(0)) == RoleColour(roles, "bg-primary")
      && Dict.Get(r, AnsiName(7)) == RoleColour(roles, "text-primary")
      && Dict.Get(r, AnsiName(8)) == RoleColour(roles, "bg-secondary")
      && Dict.Get(r, AnsiName(15)) == RoleColour(roles, "text-primary")
      && forall i :: 1 <= i < 7 ==>
           Dict.Get(r, AnsiName(i)) == Some(colors[i]) && Dict.Get(r, AnsiName(i + 8)) == Some(colors[i])
  {
    PywalIs(roles, colorData);
    var bg := RoleColour(roles, "bg-primary").value;
    var fg := RoleColour(roles, "text-primary").value;
    var cursor := RoleColour(roles, "accent-primary").value;
    var bg2 := RoleColour(roles, "bg-secondary").value;
    PywalThemeKeys(bg, fg, cursor, bg2, Colours(PywalColors(colorData)));
    PywalThemeNamed(bg, fg, cursor, bg2, Colours(PywalColors(colorData)));
    PywalThemeOverrides(bg, fg, cursor, bg2, Colours(PywalColors(colorData)));
    PywalThemeSlots(bg, fg, cursor, bg2, Colours(PywalColors(colorData)));
  }

  // ---------------------------------------------------------------------
  // The default style
  // ---------------------------------------------------------------------

  /** The generated palette as the `ansi-<i>` dictionary it is returned as. */
  function PaletteDict(ansi: seq<Rgb>): (d: TtyTheme)
    ensures |d| == |ansi| && forall i :: 0 <= i < |ansi| ==> d[i] == (AnsiName(i), ansi[i])
  {
    seq(|ansi|, i requires 0 <= i < |ansi| => (AnsiName(i), ansi[i]))
  }

  /** The rest of `tty_colors_default` once the palette exists: background
      from the primary background, foreground and cursor from the primary
      text. */
  function DefaultTheme(ansi: seq<Rgb>, roles: ColorAssign.ThemeDict): Result<TtyTheme>
  {
    var bg :- ColorAssign.Need(roles, ColorAssign.Role("bg-primary"));
    var fg :- ColorAssign.Need(roles, ColorAssign.Role("text-primary"));
    Ok(Dict.Put(Dict.Put(Dict.Put(PaletteDict(ansi), "background", bg), "foreground", fg), "cursor", fg))
  }

  /** `tty_colors_default`, with the palette from the working
      `generate_ansi`. */
  function TtyColorsDefault(pc: Gamma.PowerCurves, roles: ColorAssign.ThemeDict, colorData: seq<ColorData>): Result<TtyTheme>
    requires Gamma.Faithful(pc)
  {
    var ansi :- AssignAnsi.GenerateAnsi(pc, colorData, roles);
    DefaultTheme(ansi, roles)
  }

  /** `tty_colors_default` as written: `generate_ansi` always raises, so
      the default style never produces a theme. */
  function TtyColorsDefaultAsWritten(pc: Gamma.PowerCurves, roles: ColorAssign.ThemeDict, colorData: seq<ColorData>): (r: Result<TtyTheme>)
    ensures r.Err? && r.fault.TypeError?
  {
    match AssignAnsi.GenerateAnsiAsWritten(pc, colorData, roles)
    case Err(f) => Err(f)
    case Ok(ansi) => DefaultTheme(ansi, roles)
  }

  /** The default theme exists exactly when the palette can be generated
      and the primary text role is present. */
  lemma DefaultOutcome(pc: Gamma.PowerCurves, roles: ColorAssign.ThemeDict, colorData: seq<ColorData>)
    requires Gamma.Faithful(pc)
    ensures var r := TtyColorsDefault(pc, roles, colorData);
      var g := AssignAnsi.GenerateAnsi(pc, colorData, roles);
      && (r.Ok? <==> g.Ok? && Dict.HasKey(roles, ColorAssign.Role("text-primary")))
      && (g.Err? ==> r == Err(g.fault))
      && (g.Ok? && !Dict.HasKey(roles, ColorAssign.Role("text-primary")) ==> r == Err(KeyError("text-primary")))
  {
    AssignAnsi.GenerateAnsiOutcome(pc, colorData, roles);
  }

  lemma PaletteDictUnnamed(ansi: seq<Rgb>)
    ensures !Dict.HasKey(PaletteDict(ansi), "background")
    ensures !Dict.HasKey(PaletteDict(ansi), "foreground")
    ensures !Dict.HasKey(PaletteDict(ansi), "cursor")
  {
    var p := PaletteDict(ansi);
    forall i | 0 <= i < |p|
      ensures p[i].0 != "background" && p[i].0 != "foreground" && p[i].0 != "cursor"
    {
      AnsiNameNotNamed(i);
    }
  }

  /** Assigning the three named keys to a dict without them appends them. */
  lemma PutNamed(p: TtyTheme, bg: Rgb, fg: Rgb, cursor: Rgb)
    requires !Dict.HasKey(p, "background") && !Dict.HasKey(p, "foreground") && !Dict.HasKey(p, "cursor")
    ensures Dict.Put(Dict.Put(Dict.Put(p, "background", bg), "foreground", fg), "cursor", cursor) == p + Named(bg, fg, cursor)
  {
    var p1 := p + [("background", bg)];
    var p2 := p1 + [("foreground", fg)];
    Dict.PutFresh(p, "background", bg);
    assert !Dict.HasKey(p1, "foreground") by {
      Dict.HasKeyAppend(p, ("background", bg), "foreground");
    }
    Dict.PutFresh(p1, "foreground", fg);
    assert !Dict.HasKey(p2, "cursor") by {
      Dict.HasKeyAppend(p, ("background", bg), "cursor");
      Dict.HasKeyAppend(p1, ("foreground", fg), "cursor");
    }
    Dict.PutFresh(p2, "cursor", cursor);
    assert p2 + [("cursor", cursor)] == p + Named(bg, fg, cursor);
  }

  lemma PaletteNamedDistinct(ansi: seq<Rgb>, bg: Rgb, fg: Rgb, cursor: Rgb)
    requires |ansi| == 16
    ensures Dict.DistinctKeys(PaletteDict(ansi) + Named(bg, fg, cursor))
  {
    var p := PaletteDict(ansi);
    var d := p + Named(bg, fg, cursor);
    forall j, k | 0 <= j < k < |d|
      ensures d[j].0 != d[k].0
    {
      if k < 16 {
        assert d[j] == p[j] && d[k] == p[k];
        AnsiNameDistinct(j, k);
      } else if j < 16 {
        assert d[j] == p[j];
        AnsiNameNotNamed(j);
      }
    }
  }

  lemma PaletteNamedLookup(ansi: seq<Rgb>, bg: Rgb, fg: Rgb, cursor: Rgb)
    requires |ansi| == 16
    ensures var d := PaletteDict(ansi) + Named(bg, fg, cursor);
      && Dict.Keys(d) == PaletteKeys() + NamedKeys()
      && Dict.Get(d, "background") == Some(bg)
      && Dict.Get(d, "foreground") == Some(fg)
      && Dict.Get(d, "cursor") == Some(cursor)
      && forall i :: 0 <= i < 16 ==> Dict.Get(d, AnsiName(i)) == Some(ansi[i])
  {
    var d := PaletteDict(ansi) + Named(bg, fg, cursor);
    PaletteNamedDistinct(ansi, bg, fg, cursor);
    assert Dict.Keys(d) == PaletteKeys() + NamedKeys();
    forall i | 0 <= i < 16
      ensures Dict.Get(d, AnsiName(i)) == Some(ansi[i])
    {
      Dict.GetDistinct(d, i);
    }
    Dict.GetDistinct(d, 16);
    Dict.GetDistinct(d, 17);
    Dict.GetDistinct(d, 18);
  }

  /** The sixteen palette entries followed by the three named keys. */
  lemma DefaultThemeLayout(ansi: seq<Rgb>, roles: ColorAssign.ThemeDict)
    requires |ansi| == 16
    requires DefaultTheme(ansi, roles).Ok?
    ensures var r := DefaultTheme(ansi, roles).value;
      && |r| == 19 && Dict.DistinctKeys(r)
      && Dict.Keys(r) == PaletteKeys() + NamedKeys()
      && Dict.Get(r, "background") == RoleColour(roles, "bg-primary")
      && Dict.Get(r, "foreground") == RoleColour(roles, "text-primary")
      && Dict.Get(r, "cursor") == RoleColour(roles, "text-primary")
      && forall i :: 0 <= i < 16 ==> Dict.Get(r, AnsiName(i)) == Some(ansi[i])
  {
    var bg := RoleColour(roles, "bg-primary").value;
    var fg := RoleColour(roles, "text-primary").value;
    PaletteDictUnnamed(ansi);
    PutNamed(PaletteDict(ansi), bg, fg, fg);
    PaletteNamedDistinct(ansi, bg, fg, fg);
    PaletteNamedLookup(ansi, bg, fg, fg);
  }

  /** The default theme lists the sixteen generated entries and then the
      three named keys; background is the primary background, foreground
      and cursor are both the primary text. */
  lemma DefaultLayout(pc: Gamma.PowerCurves, roles: ColorAssign.ThemeDict, colorData: seq<ColorData>)
    requires Gamma.Faithful(pc)
    requires TtyColorsDefault(pc, roles, colorData).Ok?
    ensures var r := TtyColorsDefault(pc, roles, colorData).value;
      var g := AssignAnsi.GenerateAnsi(pc, colorData, roles);
      && g.Ok? && |g.value| == 16
      && |r| == 19 && Dict.DistinctKeys(r)
      && Dict.Keys(r) == PaletteKeys() + NamedKeys()
      && Dict.Get(r, "background") == RoleColour(roles, "bg-primary")
      && Dict.Get(r, "foreground") == RoleColour(roles, "text-primary")
      && Dict.Get(r, "cursor") == RoleColour(roles, "text-primary")
      && forall i :: 0 <= i < 16 ==> Dict.Get(r, AnsiName(i)) == Some(g.value[i])
  {
    DefaultOutcome(pc, roles, colorData);
    AssignAnsi.GenerateAnsiLength(pc, colorData, roles);
    DefaultThemeLayout(AssignAnsi.GenerateAnsi(pc, colorData, roles).value, roles);
  }

  // ---------------------------------------------------------------------
  // Choosing the style
  // ---------------------------------------------------------------------

  /** The request string `reload_tty_and_save_sequence` writes to every
      terminal and to the sequence file. */
  function ReloadSequence(pc: Gamma.PowerCurves, colorData: seq<ColorData>, roles: ColorAssign.ThemeDict, style: string): Result<string>
    requires Gamma.Faithful(pc)
  {
    var colors :-
      if style == "default" then TtyColorsDefault(pc, roles, colorData)
      else if style == "pywal" then TtyColorsPywal(roles, colorData)
      else Err(ValueError("Invalid terminal color style:"));
    Ok(TtyColorSequence(colors))
  }

  /** A complete theme's sequence reads back as nineteen requests, one
      per target, in the fixed order. */
  lemma CompleteSequence(theme: TtyTheme)
    requires Complete(theme)
    ensures exists qs: seq<Request> :: ParseSequence(TtyColorSequence(theme)) == Some(qs) && |qs| == 19 && forall j :: 0 <= j < 19 ==> qs[j].target == AllTargets()[j]
  {
    CompleteRequests(theme);
    SequenceRoundTrip(theme);
    var qs := Requests(theme);
    assert ParseSequence(TtyColorSequence(theme)) == Some(qs);
  }

  /** A theme with the nineteen keys, in either order, is complete. */
  lemma KeysComplete(theme: TtyTheme)
    requires Dict.Keys(theme) == NamedKeys() + PaletteKeys() || Dict.Keys(theme) == PaletteKeys() + NamedKeys()
    ensures Complete(theme)
  {
    var off := if Dict.Keys(theme) == NamedKeys() + PaletteKeys() then 3 else 0;
    var b := if off == 3 then 0 else 16;
    assert theme[b].0 == "background" && theme[b + 1].0 == "foreground";
    forall i | 0 <= i < 16
      ensures Dict.HasKey(theme, AnsiName(i))
    {
      assert theme[i + off].0 == AnsiName(i);
    }
  }

  /** A style other than "default" or "pywal" is refused before anything
      else is looked at. */
  lemma ReloadStyle(pc: Gamma.PowerCurves, colorData: seq<ColorData>, roles: ColorAssign.ThemeDict, style: string)
    requires Gamma.Faithful(pc)
    ensures ReloadSequence(pc, colorData, roles, style).Ok? ==> style == "default" || style == "pywal"
    ensures style != "default" && style != "pywal" ==>
      ReloadSequence(pc, colorData, roles, style) == Err(ValueError("Invalid terminal color style:"))
  {
  }

  /** A string that is produced sets the background, foreground, cursor and
      all sixteen palette entries, in that order. */
  lemma ReloadComplete(pc: Gamma.PowerCurves, colorData: seq<ColorData>, roles: ColorAssign.ThemeDict, style: string)
    requires Gamma.Faithful(pc)
    requires ReloadSequence(pc, colorData, roles, style).Ok?
    ensures var s := ReloadSequence(pc, colorData, roles, style).value;
      exists qs: seq<Request> :: ParseSequence(s) == Some(qs) && |qs| == 19 && forall j :: 0 <= j < 19 ==> qs[j].target == AllTargets()[j]
  {
    if style == "default" {
      var theme := TtyColorsDefault(pc, roles, colorData).value;
      assert ReloadSequence(pc, colorData, roles, style).value == TtyColorSequence(theme);
      DefaultComplete(pc, roles, colorData);
      CompleteSequence(theme);
    } else {
      var theme := TtyColorsPywal(roles, colorData).value;
      assert ReloadSequence(pc, colorData, roles, style).value == TtyColorSequence(theme);
      PywalComplete(roles, colorData);
      CompleteSequence(theme);
    }
  }

  /** The default style's theme has all nineteen keys. */
  lemma DefaultComplete(pc: Gamma.PowerCurves, roles: ColorAssign.ThemeDict, colorData: seq<ColorData>)
    requires Gamma.Faithful(pc)
    requires TtyColorsDefault(pc, roles, colorData).Ok?
    ensures Complete(TtyColorsDefault(pc, roles, colorData).value)
  {
    DefaultLayout(pc, roles, colorData);
    KeysComplete(TtyColorsDefault(pc, roles, colorData).value);
  }

  /** The pywal style's theme has all nineteen keys. */
  lemma PywalComplete(roles: ColorAssign.ThemeDict, colorData: seq<ColorData>)
    requires TtyColorsPywal(roles, colorData).Ok?
    ensures Complete(TtyColorsPywal(roles, colorData).value)
  {
    PywalLayout(roles, colorData);
    KeysComplete(TtyColorsPywal(roles, colorData).value);
  }
}
