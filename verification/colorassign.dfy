/** `color_assign.py`: the theme decision and the assembly of the theme
    dictionary from the role helpers. */
module ColorAssign {
  import opened Wrappers
  import opened Numeric
  import Gamma
  import opened Colors
  import Text
  import Dict
  import Select
  import opened AssignLogic

  const MinColors: nat := 8
  const ThemeThreshold: real := 128.0

  /** `sum(col.rgb.luma * col.coverage for col in color_data)`. */
  function WeightedLuma(pc: Gamma.PowerCurves, colors: seq<ColorData>): real
  {
    if |colors| == 0 then 0.0
    else
      var last := colors[|colors| - 1];
      WeightedLuma(pc, colors[..|colors| - 1]) + Mul(Luma(pc, last.rgb), last.coverage)
  }

  function CoverageSum(colors: seq<ColorData>): real
  {
    if |colors| == 0 then 0.0 else CoverageSum(colors[..|colors| - 1]) + colors[|colors| - 1].coverage
  }

  /** `decide_theme`: light exactly when the coverage-weighted luma exceeds
      128. */
  function DecideTheme(pc: Gamma.PowerCurves, colors: seq<ColorData>): (theme: Theme)
    ensures theme == Light <==> WeightedLuma(pc, colors) > ThemeThreshold
  {
    if WeightedLuma(pc, colors) > ThemeThreshold then Light else Dark
  }

  /** With non-negative coverages, lumas of at most hi keep the weighted
      luma at most hi times the total coverage. */
  lemma {:induction false} WeightedLumaAtMost(pc: Gamma.PowerCurves, colors: seq<ColorData>, hi: real)
    requires forall i :: 0 <= i < |colors| ==> 0.0 <= colors[i].coverage
    requires forall i :: 0 <= i < |colors| ==> Luma(pc, colors[i].rgb) <= hi
    ensures WeightedLuma(pc, colors) <= Mul(hi, CoverageSum(colors))
  {
    if |colors| == 0 {
      MulZero(hi);
    } else {
      var init := colors[..|colors| - 1];
      var last := colors[|colors| - 1];
      assert forall i :: 0 <= i < |init| ==> init[i] == colors[i];
      WeightedLumaAtMost(pc, init, hi);
      var l := Luma(pc, last.rgb);
      MulMonotone(last.coverage, l, hi);
      MulCommutes(last.coverage, l);
      MulCommutes(last.coverage, hi);
      MulDistributes(hi, CoverageSum(init), last.coverage);
    }
  }

  /** Likewise lumas of at least lo keep it at least lo times the total
      coverage. */
  lemma {:induction false} WeightedLumaAtLeast(pc: Gamma.PowerCurves, colors: seq<ColorData>, lo: real)
    requires forall i :: 0 <= i < |colors| ==> 0.0 <= colors[i].coverage
    requires forall i :: 0 <= i < |colors| ==> lo <= Luma(pc, colors[i].rgb)
    ensures Mul(lo, CoverageSum(colors)) <= WeightedLuma(pc, colors)
  {
    if |colors| == 0 {
      MulZero(lo);
    } else {
      var init := colors[..|colors| - 1];
      var last := colors[|colors| - 1];
      assert forall i :: 0 <= i < |init| ==> init[i] == colors[i];
      WeightedLumaAtLeast(pc, init, lo);
      var l := Luma(pc, last.rgb);
      MulMonotone(last.coverage, lo, l);
      MulCommutes(last.coverage, lo);
      MulCommutes(last.coverage, l);
      MulDistributes(lo, CoverageSum(init), last.coverage);
    }
  }

  /** For coverages that are non-negative and sum to 1, a palette whose
      every luma is at least some lo above 128 is light, and one whose every
      luma is at most 128 is dark. */
  lemma DecideThemeExtremes(pc: Gamma.PowerCurves, colors: seq<ColorData>, lo: real)
    requires forall i :: 0 <= i < |colors| ==> 0.0 <= colors[i].coverage
    requires CoverageSum(colors) == 1.0
    ensures (forall i :: 0 <= i < |colors| ==> Luma(pc, colors[i].rgb) <= ThemeThreshold)
      ==> DecideTheme(pc, colors) == Dark
    ensures ThemeThreshold < lo && (forall i :: 0 <= i < |colors| ==> lo <= Luma(pc, colors[i].rgb))
      ==> DecideTheme(pc, colors) == Light
  {
    MulOne(lo);
    MulOne(ThemeThreshold);
    if forall i :: 0 <= i < |colors| ==> Luma(pc, colors[i].rgb) <= ThemeThreshold {
      WeightedLumaAtMost(pc, colors, ThemeThreshold);
    }
    if forall i :: 0 <= i < |colors| ==> lo <= Luma(pc, colors[i].rgb) {
      WeightedLumaAtLeast(pc, colors, lo);
    }
  }

  predicate ValidThemeType(themeType: string)
  {
    themeType == "auto" || themeType == "light" || themeType == "dark"
  }

  /** The error for a short palette, naming the minimum and the count. */
  function TooFewColors(count: nat): string
  {
    "Need at least " + Text.Decimal(MinColors) + " colors for theme generation, got " + Text.Decimal(count) + "."
  }

  /** The error for an unknown theme type, listing `auto, light, dark`. */
  function NotAThemeType(themeType: string): string
  {
    "'" + themeType + "' is not a valid theme type. Supported option are auto, light, dark"
  }

  /** The palette the roles are read from: as given when presorted, else
      sorted by luma from brightest to darkest. */
  function Arrange(pc: Gamma.PowerCurves, colors: seq<ColorData>, presorted: bool): (palette: seq<ColorData>)
    ensures |palette| == |colors|
  {
    if presorted then colors
    else
      Select.SortDownCorrect(colors, (c: ColorData) => Luma(pc, c.rgb));
      Select.SortDown(colors, (c: ColorData) => Luma(pc, c.rgb))
  }

  /** Unless presorted, the palette is a reordering of the input with
      lumas non-increasing. */
  lemma ArrangeSorted(pc: Gamma.PowerCurves, colors: seq<ColorData>, presorted: bool)
    ensures multiset(Arrange(pc, colors, presorted)) == multiset(colors)
    ensures |Arrange(pc, colors, presorted)| == |colors|
    ensures !presorted ==> Select.SortedDown(Arrange(pc, colors, presorted), (c: ColorData) => Luma(pc, c.rgb))
  {
    Select.SortDownCorrect(colors, (c: ColorData) => Luma(pc, c.rgb));
  }

  /** "auto" decides from the palette; "light" and "dark" pass through. */
  function ChooseTheme(pc: Gamma.PowerCurves, palette: seq<ColorData>, themeType: string): (theme: Theme)
    ensures themeType == "light" ==> theme == Light
    ensures themeType == "dark" ==> theme == Dark
  {
    if themeType == "auto" then DecideTheme(pc, palette)
    else if themeType == "light" then Light
    else Dark
  }

  /** The three status roles mapped onto ANSI slots. */
  datatype StatusRole = Error | Warning | Success

  /** A key of the theme dictionary: a role name, `ansi-<i>`, or a status
      colour. The string the program uses for each is `KeyName`. */
  datatype Key = Role(name: string) | Ansi(index: nat) | Status(role: StatusRole)

  function KeyName(k: Key): string
  {
    match k
    case Role(n) => n
    case Ansi(i) => "ansi-" + Text.Decimal(i)
    case Status(Error) => "error-color"
    case Status(Warning) => "warning-color"
    case Status(Success) => "success-color"
  }

  type ThemeDict = Dict.Dict<Key, Rgb>

  /** The ten role names, in the order the dictionary lists them. */
  const RoleNames: seq<string> := [
    "bg-primary", "bg-secondary", "bg-tertiary",
    "text-primary", "text-secondary", "text-tertiary",
    "accent-primary", "accent-secondary",
    "border-active", "border-inactive"]

  const StatusKeys: seq<Key> := [Status(Error), Status(Warning), Status(Success)]

  function RoleKeys(names: seq<string>): (ks: seq<Key>)
    ensures |ks| == |names| && forall i :: 0 <= i < |names| ==> ks[i] == Role(names[i])
  {
    if |names| == 0 then [] else RoleKeys(names[..|names| - 1]) + [Role(names[|names| - 1])]
  }

  function AnsiKeys(n: nat): (ks: seq<Key>)
    ensures |ks| == n && forall i :: 0 <= i < n ==> ks[i] == Ansi(i)
  {
    if n == 0 then [] else AnsiKeys(n - 1) + [Ansi(n - 1)]
  }

  /** The ANSI indices the status colours read: red, yellow and green,
      bright in the light theme. */
  function StatusSlots(theme: Theme): (nat, nat, nat)
  {
    if theme.Dark? then (1, 3, 2) else (9, 11, 10)
  }

  /** `for i, color in enumerate(ansi_colors): theme_dict[f"ansi-{i}"] = color`. */
  function WithAnsi(d: ThemeDict, ansi: seq<Rgb>): ThemeDict
  {
    if |ansi| == 0 then d
    else Dict.Put(WithAnsi(d, ansi[..|ansi| - 1]), Ansi(|ansi| - 1), ansi[|ansi| - 1])
  }

  /** The ten role colours `assign_color` computes. */
  datatype RoleColours = RoleColours(
    bgPrimary: Rgb, bgSecondary: Rgb, bgTertiary: Rgb,
    textPrimary: Rgb, textSecondary: Rgb, textTertiary: Rgb,
    accentPrimary: Rgb, accentSecondary: Rgb,
    borderActive: Rgb, borderInactive: Rgb)

  /** The ten-role dictionary literal. */
  function RoleDict(r: RoleColours): ThemeDict
  {
    [(Role("bg-primary"), r.bgPrimary), (Role("bg-secondary"), r.bgSecondary), (Role("bg-tertiary"), r.bgTertiary),
     (Role("text-primary"), r.textPrimary), (Role("text-secondary"), r.textSecondary), (Role("text-tertiary"), r.textTertiary),
     (Role("accent-primary"), r.accentPrimary), (Role("accent-secondary"), r.accentSecondary),
     (Role("border-active"), r.borderActive), (Role("border-inactive"), r.borderInactive)]
  }

  /** `theme_dict[k]`, raising KeyError on a missing key. */
  function Need(d: ThemeDict, k: Key): (r: Result<Rgb>)
    ensures r.Ok? <==> Dict.HasKey(d, k)
    ensures r.Ok? ==> Dict.Get(d, k) == Some(r.value)
    ensures r.Err? ==> r.fault == KeyError(KeyName(k))
  {
    match Dict.Get(d, k)
    case Some(v) => Ok(v)
    case None => Err(KeyError(KeyName(k)))
  }

  /** `theme_dict[status] = theme_dict[f"ansi-{slot}"]`, once an earlier
      step has not raised. */
  function SetStatus(prev: Result<ThemeDict>, r: StatusRole, slot: nat): Result<ThemeDict>
  {
    var d :- prev;
    var v :- Need(d, Ansi(slot));
    Ok(Dict.Put(d, Status(r), v))
  }

  /** The status colours error, warning and success, in that order, copied
      from their ANSI slots. */
  function WithStatus(d: ThemeDict, theme: Theme): Result<ThemeDict>
  {
    var (e, w, s) := StatusSlots(theme);
    SetStatus(SetStatus(SetStatus(Ok(d), Error, e), Warning, w), Success, s)
  }

  /** The role helpers in the order `assign_color` calls them: the
      backgrounds, the text colours against them, the accents, and the
      borders from the primary accent and background. */
  function AssignRoles(pc: Gamma.PowerCurves, palette: seq<ColorData>, theme: Theme, bgTertiary: Rgb): (r: RoleColours)
    requires Gamma.Faithful(pc) && |palette| >= 2
    ensures r.bgTertiary == bgTertiary
    ensures r.borderActive == r.accentPrimary
  {
    var bg := AssignBg(pc, palette, theme);
    var fg := AssignFg(pc, palette, bg.0, bg.1, bgTertiary, theme);
    var accents := AssignAccents(pc, palette, theme);
    var borders := AssignBorder(pc, accents.0, bg.0);
    RoleColours(bg.0, bg.1, bgTertiary, fg.0, fg.1, fg.2, accents.0, accents.1, borders.0, borders.1)
  }

  /** The role literal, then the ANSI entries, then the status colours. */
  function Assemble(r: RoleColours, ansi: seq<Rgb>, theme: Theme): Result<ThemeDict>
  {
    WithStatus(WithAnsi(RoleDict(r), ansi), theme)
  }

  /** `assign_color(color_data, theme_type, presorted)` with the tertiary
      background and the ANSI colours supplied by the caller. */
  function AssignColor(pc: Gamma.PowerCurves, colors: seq<ColorData>, themeType: string, presorted: bool,
                       bgTertiary: Rgb, ansi: seq<Rgb>): (res: Result<ThemeDict>)
    requires Gamma.Faithful(pc)
  {
    if |colors| < MinColors then Err(ValueError(TooFewColors(|colors|)))
    else if !ValidThemeType(themeType) then Err(ValueError(NotAThemeType(themeType)))
    else
      var palette := Arrange(pc, colors, presorted);
      var theme := ChooseTheme(pc, palette, themeType);
      Assemble(AssignRoles(pc, palette, theme, bgTertiary), ansi, theme)
  }

  // ---- Shape of the theme dictionary ----------------------------------

  /** A role name the program could not confuse with another key: it is not
      `ansi-...` (second character 'n') and not a status name. */
  predicate PlainName(n: string)
  {
    (|n| < 2 || n[1] != 'n') && n != "error-color" && n != "warning-color" && n != "success-color"
  }

  /** Every key of the role part is a role. */
  predicate RolesOnly(d: ThemeDict)
  {
    forall i :: 0 <= i < |d| ==> d[i].0.Role?
  }

  lemma AnsiNameShape(i: nat)
    ensures |KeyName(Ansi(i))| >= 6 && KeyName(Ansi(i))[1] == 'n'
  {
  }

  /** Different indices give different names: the digits read back. */
  lemma AnsiNameInjective(i: nat, j: nat)
    requires KeyName(Ansi(i)) == KeyName(Ansi(j))
    ensures i == j
  {
    assert Text.Decimal(i) == KeyName(Ansi(i))[5..];
    assert Text.Decimal(j) == KeyName(Ansi(j))[5..];
    Text.DecimalRoundTrip(i);
    Text.DecimalRoundTrip(j);
  }

  /** Distinct keys have distinct names, as long as role names are plain:
      the string dictionary the program builds has the same entries. */
  lemma KeyNameInjective(k1: Key, k2: Key)
    requires k1.Role? ==> PlainName(k1.name)
    requires k2.Role? ==> PlainName(k2.name)
    requires KeyName(k1) == KeyName(k2)
    ensures k1 == k2
  {
    match k1
    case Role(_) =>
      if k2.Ansi? {
        AnsiNameShape(k2.index);
      }
    case Ansi(i) =>
      AnsiNameShape(i);
      if k2.Ansi? {
        AnsiNameInjective(i, k2.index);
      }
    case Status(_) =>
      if k2.Ansi? {
        AnsiNameShape(k2.index);
      }
  }

  /** The entries `("ansi-<i>", ansi[i])` in index order. */
  function AnsiEntries(ansi: seq<Rgb>): (d: ThemeDict)
    ensures |d| == |ansi| && forall i :: 0 <= i < |ansi| ==> d[i] == (Ansi(i), ansi[i])
  {
    if |ansi| == 0 then [] else AnsiEntries(ansi[..|ansi| - 1]) + [(Ansi(|ansi| - 1), ansi[|ansi| - 1])]
  }

  /** Entry `|d| + j` is the only one carrying `ansi-<j>`. */
  lemma AnsiKeyPlace(d: ThemeDict, ansi: seq<Rgb>, j: nat)
    requires RolesOnly(d)
    ensures forall i :: 0 <= i < |d| + |ansi| && i != |d| + j ==> (d + AnsiEntries(ansi))[i].0 != Ansi(j)
    ensures Dict.HasKey(d + AnsiEntries(ansi), Ansi(j)) <==> j < |ansi|
  {
    var a := AnsiEntries(ansi);
    var e := d + a;
    forall i | 0 <= i < |e|
      ensures e[i] == if i < |d| then d[i] else a[i - |d|]
    {
    }
    if j < |ansi| {
      assert e[|d| + j].0 == Ansi(j);
    }
  }

  /** No status key is present before the status step. */
  lemma StatusKeysAbsent(d: ThemeDict, ansi: seq<Rgb>, r: StatusRole)
    requires RolesOnly(d)
    ensures !Dict.HasKey(d + AnsiEntries(ansi), Status(r))
  {
    var a := AnsiEntries(ansi);
    var e := d + a;
    forall i | 0 <= i < |e|
      ensures e[i].0 != Status(r)
    {
      assert e[i] == if i < |d| then d[i] else a[i - |d|];
    }
  }

  /** Assigning fresh `ansi-<i>` keys in order appends them. */
  lemma {:induction false} WithAnsiAppends(d: ThemeDict, ansi: seq<Rgb>)
    requires RolesOnly(d)
    ensures WithAnsi(d, ansi) == d + AnsiEntries(ansi)
  {
    if |ansi| > 0 {
      var n := |ansi| - 1;
      var init := ansi[..n];
      WithAnsiAppends(d, init);
      AnsiKeyPlace(d, init, n);
      Dict.PutFresh(d + AnsiEntries(init), Ansi(n), ansi[n]);
      assert AnsiEntries(ansi) == AnsiEntries(init) + [(Ansi(n), ansi[n])];
      assert (d + AnsiEntries(init)) + [(Ansi(n), ansi[n])] == d + AnsiEntries(ansi);
    }
  }

  /** `theme_dict.get("ansi-<j>")` finds `ansi[j]` when the list reaches
      j ... */
  lemma AnsiGetPresent(d: ThemeDict, ansi: seq<Rgb>, j: nat)
    requires RolesOnly(d)
    requires j < |ansi|
    ensures Dict.Get(d + AnsiEntries(ansi), Ansi(j)) == Some(ansi[j])
  {
    var a := AnsiEntries(ansi);
    var e := d + a;
    AnsiKeyPlace(d, ansi, j);
    assert e[|d| + j] == a[j] == (Ansi(j), ansi[j]);
    assert forall m :: 0 <= m < |d| + j ==> e[m].0 != e[|d| + j].0;
    Dict.GetAt(e, |d| + j);
  }

  /** ... and nothing past its end. */
  lemma AnsiGetAbsent(d: ThemeDict, ansi: seq<Rgb>, j: nat)
    requires RolesOnly(d)
    requires |ansi| <= j
    ensures Dict.Get(d + AnsiEntries(ansi), Ansi(j)) == None
  {
    AnsiKeyPlace(d, ansi, j);
  }

  /** `theme_dict["ansi-<j>"]` finds `ansi[j]`, or raises KeyError past the
      end of the list. */
  lemma AnsiLookup(d: ThemeDict, ansi: seq<Rgb>, j: nat)
    requires RolesOnly(d)
    ensures Need(d + AnsiEntries(ansi), Ansi(j))
      == if j < |ansi| then Ok(ansi[j]) else Err(KeyError(KeyName(Ansi(j))))
  {
    if j < |ansi| {
      AnsiGetPresent(d, ansi, j);
    } else {
      AnsiGetAbsent(d, ansi, j);
    }
  }

  /** The three status entries, read from their ANSI slots. */
  function StatusEntries(ansi: seq<Rgb>, theme: Theme): ThemeDict
    requires StatusSlots(theme).1 < |ansi|
  {
    var (e, w, s) := StatusSlots(theme);
    [(Status(Error), ansi[e]), (Status(Warning), ansi[w]), (Status(Success), ansi[s])]
  }

  /** What the status step needs of the dictionary before it: the ANSI
      entries are found where the list has them, and no status key is set. */
  ghost predicate ReadyForStatus(base: ThemeDict, ansi: seq<Rgb>)
  {
    && (forall j: nat :: Dict.Get(base, Ansi(j)) == if j < |ansi| then Some(ansi[j]) else None)
    && (forall r :: !Dict.HasKey(base, Status(r)))
  }

  /** The role part followed by the ANSI entries is ready for the status
      step. */
  lemma AnsiPartReady(d: ThemeDict, ansi: seq<Rgb>)
    requires RolesOnly(d)
    ensures ReadyForStatus(d + AnsiEntries(ansi), ansi)
  {
    forall j: nat
      ensures Dict.Get(d + AnsiEntries(ansi), Ansi(j)) == if j < |ansi| then Some(ansi[j]) else None
    {
      if j < |ansi| {
        AnsiGetPresent(d, ansi, j);
      } else {
        AnsiGetAbsent(d, ansi, j);
      }
    }
    forall r
      ensures !Dict.HasKey(d + AnsiEntries(ansi), Status(r))
    {
      StatusKeysAbsent(d, ansi, r);
    }
  }

  /** One status step on a dictionary holding the slot and not yet the
      status key appends the status entry. */
  lemma SetStatusAppends(d: ThemeDict, r: StatusRole, slot: nat, v: Rgb)
    requires Dict.Get(d, Ansi(slot)) == Some(v)
    requires !Dict.HasKey(d, Status(r))
    ensures SetStatus(Ok(d), r, slot) == Ok(d + [(Status(r), v)])
  {
    Dict.PutFresh(d, Status(r), v);
  }

  /** One status step on a dictionary missing the slot raises KeyError. */
  lemma SetStatusMissing(d: ThemeDict, r: StatusRole, slot: nat)
    requires Dict.Get(d, Ansi(slot)) == None
    ensures SetStatus(Ok(d), r, slot) == Err(KeyError(KeyName(Ansi(slot))))
  {
  }

  /** Appending a status entry keeps the ANSI lookups and the absence of
      the other status keys. */
  lemma StatusAppendKeeps(d: ThemeDict, r: StatusRole, v: Rgb, j: nat, r': StatusRole)
    requires r' != r
    ensures Dict.Get(d + [(Status(r), v)], Ansi(j)) == Dict.Get(d, Ansi(j))
    ensures Dict.HasKey(d + [(Status(r), v)], Status(r')) == Dict.HasKey(d, Status(r'))
  {
    Dict.GetExtend(d, [(Status(r), v)], Ansi(j));
    Dict.HasKeyAppend(d, (Status(r), v), Status(r'));
  }

  lemma AppendThree<T>(s: seq<T>, a: T, b: T, c: T)
    ensures s + [a] + [b] + [c] == s + [a, b, c]
  {
  }

  /** When every slot the status colours read exists, they are appended
      after the ANSI entries. */
  lemma WithStatusAppends(base: ThemeDict, ansi: seq<Rgb>, theme: Theme)
    requires ReadyForStatus(base, ansi)
    requires StatusSlots(theme).1 < |ansi|
    ensures WithStatus(base, theme) == Ok(base + StatusEntries(ansi, theme))
  {
    var (e, w, s) := StatusSlots(theme);
    var err := (Status(Error), ansi[e]);
    var warn := (Status(Warning), ansi[w]);
    var succ := (Status(Success), ansi[s]);
    assert Dict.Get(base, Ansi(e)) == Some(ansi[e]);
    assert Dict.Get(base, Ansi(w)) == Some(ansi[w]);
    assert Dict.Get(base, Ansi(s)) == Some(ansi[s]);
    assert !Dict.HasKey(base, Status(Error));
    assert !Dict.HasKey(base, Status(Warning));
    assert !Dict.HasKey(base, Status(Success));
    SetStatusAppends(base, Error, e, ansi[e]);
    var d1 := base + [err];
    StatusAppendKeeps(base, Error, ansi[e], w, Warning);
    StatusAppendKeeps(base, Error, ansi[e], s, Success);
    SetStatusAppends(d1, Warning, w, ansi[w]);
    var d2 := d1 + [warn];
    StatusAppendKeeps(d1, Warning, ansi[w], s, Success);
    SetStatusAppends(d2, Success, s, ansi[s]);
    AppendThree(base, err, warn, succ);
  }

  /** Otherwise the first missing slot, error before warning, raises
      KeyError. */
  lemma WithStatusMissing(base: ThemeDict, ansi: seq<Rgb>, theme: Theme)
    requires ReadyForStatus(base, ansi)
    requires |ansi| <= StatusSlots(theme).1
    ensures var (e, w, _) := StatusSlots(theme);
      WithStatus(base, theme) == Err(KeyError(KeyName(Ansi(if |ansi| <= e then e else w))))
  {
    var (e, w, s) := StatusSlots(theme);
    assert Dict.Get(base, Ansi(w)) == None;
    if e < |ansi| {
      assert Dict.Get(base, Ansi(e)) == Some(ansi[e]);
      assert !Dict.HasKey(base, Status(Error));
      SetStatusAppends(base, Error, e, ansi[e]);
      StatusAppendKeeps(base, Error, ansi[e], w, Warning);
      SetStatusMissing(base + [(Status(Error), ansi[e])], Warning, w);
    } else {
      assert Dict.Get(base, Ansi(e)) == None;
      SetStatusMissing(base, Error, e);
    }
  }

  /** The role dictionary literal holds only roles, and its names are
      plain. */
  lemma RoleDictRoles(r: RoleColours)
    ensures RolesOnly(RoleDict(r))
    ensures var d := RoleDict(r);
      forall i :: 0 <= i < |d| ==> PlainName(d[i].0.name)
  {
  }

  /** Its ten role names are listed in order ... */
  lemma RoleDictKeys(r: RoleColours)
    ensures Dict.Keys(RoleDict(r)) == RoleKeys(RoleNames)
  {
    SameKeys(RoleDict(r), RoleKeys(RoleNames));
  }

  /** ... and none twice. */
  lemma RoleDictDistinct(r: RoleColours)
    ensures Dict.DistinctKeys(RoleDict(r))
  {
    var d := RoleDict(r);
    assert forall i :: 0 <= i < |d| ==> d[i].0 == Role(RoleNames[i]);
    assert forall i, j :: 0 <= i < j < |RoleNames| ==> RoleNames[i] != RoleNames[j];
  }

  /** The keys of the finished dictionary: the roles, `ansi-0` up to the
      last ANSI colour, then the three status keys ... */
  lemma ThemeDictKeys(d: ThemeDict, ansi: seq<Rgb>, theme: Theme)
    requires StatusSlots(theme).1 < |ansi|
    ensures Dict.Keys(d + AnsiEntries(ansi) + StatusEntries(ansi, theme)) == Dict.Keys(d) + AnsiKeys(|ansi|) + StatusKeys
  {
    var a := AnsiEntries(ansi);
    var st := StatusEntries(ansi, theme);
    var out := d + a + st;
    var ks := Dict.Keys(d) + AnsiKeys(|ansi|) + StatusKeys;
    forall i | 0 <= i < |out|
      ensures out[i].0 == ks[i]
    {
      if i < |d| {
        assert out[i] == d[i];
      } else if i < |d| + |a| {
        assert out[i] == a[i - |d|];
      } else {
        assert out[i] == st[i - |d| - |a|];
      }
    }
    SameKeys(out, ks);
  }

  /** The key at each position of the finished dictionary: a role key
      first ... */
  lemma KeyAtRole(d: ThemeDict, ansi: seq<Rgb>, st: ThemeDict, i: nat)
    requires i < |d|
    ensures (d + AnsiEntries(ansi) + st)[i].0 == d[i].0
  {
    assert (d + AnsiEntries(ansi) + st)[i] == d[i];
  }

  /** ... then `ansi-<i>` ... */
  lemma KeyAtAnsi(d: ThemeDict, ansi: seq<Rgb>, st: ThemeDict, i: nat)
    requires |d| <= i < |d| + |ansi|
    ensures (d + AnsiEntries(ansi) + st)[i].0 == Ansi(i - |d|)
  {
    assert (d + AnsiEntries(ansi) + st)[i] == AnsiEntries(ansi)[i - |d|];
  }

  /** ... then the status keys. */
  lemma KeyAtStatus(d: ThemeDict, ansi: seq<Rgb>, theme: Theme, i: nat)
    requires StatusSlots(theme).1 < |ansi|
    requires |d| + |ansi| <= i < |d| + |ansi| + 3
    ensures (d + AnsiEntries(ansi) + StatusEntries(ansi, theme))[i].0 == StatusKeys[i - |d| - |ansi|]
  {
    var st := StatusEntries(ansi, theme);
    assert (d + AnsiEntries(ansi) + st)[i] == st[i - |d| - |ansi|];
  }

  /** The position lemmas together. */
  lemma ThemeDictKeyAt(d: ThemeDict, ansi: seq<Rgb>, theme: Theme, i: nat)
    requires StatusSlots(theme).1 < |ansi|
    requires i < |d| + |ansi| + 3
    ensures (d + AnsiEntries(ansi) + StatusEntries(ansi, theme))[i].0
      == if i < |d| then d[i].0 else if i < |d| + |ansi| then Ansi(i - |d|) else StatusKeys[i - |d| - |ansi|]
  {
    if i < |d| {
      KeyAtRole(d, ansi, StatusEntries(ansi, theme), i);
    } else if i < |d| + |ansi| {
      KeyAtAnsi(d, ansi, StatusEntries(ansi, theme), i);
    } else {
      KeyAtStatus(d, ansi, theme, i);
    }
  }

  /** ... with no key twice. */
  lemma ThemeDictDistinct(d: ThemeDict, ansi: seq<Rgb>, theme: Theme)
    requires RolesOnly(d) && Dict.DistinctKeys(d)
    requires StatusSlots(theme).1 < |ansi|
    ensures Dict.DistinctKeys(d + AnsiEntries(ansi) + StatusEntries(ansi, theme))
  {
    var out := d + AnsiEntries(ansi) + StatusEntries(ansi, theme);
    forall i, j | 0 <= i < j < |out|
      ensures out[i].0 != out[j].0
    {
      ThemeDictKeyAt(d, ansi, theme, i);
      ThemeDictKeyAt(d, ansi, theme, j);
      if i < |d| {
        assert d[i].0.Role?;
        if j < |d| {
          assert d[i].0 != d[j].0;
        }
      }
    }
  }

  lemma SameKeys(d: ThemeDict, ks: seq<Key>)
    requires |d| == |ks| && forall i :: 0 <= i < |d| ==> d[i].0 == ks[i]
    ensures Dict.Keys(d) == ks
  {
  }

  /** The finished dictionary reads back each ANSI slot ... */
  lemma ThemeDictAnsiReads(d: ThemeDict, ansi: seq<Rgb>, theme: Theme, j: nat)
    requires RolesOnly(d) && Dict.DistinctKeys(d)
    requires StatusSlots(theme).1 < |ansi| && j < |ansi|
    ensures Dict.Get(d + AnsiEntries(ansi) + StatusEntries(ansi, theme), Ansi(j)) == Some(ansi[j])
  {
    var out := d + AnsiEntries(ansi) + StatusEntries(ansi, theme);
    ThemeDictDistinct(d, ansi, theme);
    assert out[|d| + j] == AnsiEntries(ansi)[j];
    Dict.GetDistinct(out, |d| + j);
  }

  /** ... and each status colour as the colour of its slot ... */
  lemma ThemeDictStatusReads(d: ThemeDict, ansi: seq<Rgb>, theme: Theme)
    requires RolesOnly(d) && Dict.DistinctKeys(d)
    requires StatusSlots(theme).1 < |ansi|
    ensures var out := d + AnsiEntries(ansi) + StatusEntries(ansi, theme);
      var (e, w, s) := StatusSlots(theme);
      && Dict.Get(out, Status(Error)) == Some(ansi[e])
      && Dict.Get(out, Status(Warning)) == Some(ansi[w])
      && Dict.Get(out, Status(Success)) == Some(ansi[s])
  {
    var st := StatusEntries(ansi, theme);
    var out := d + AnsiEntries(ansi) + st;
    var n := |d| + |ansi|;
    ThemeDictDistinct(d, ansi, theme);
    assert out[n] == st[0] && out[n + 1] == st[1] && out[n + 2] == st[2];
    Dict.GetDistinct(out, n);
    Dict.GetDistinct(out, n + 1);
    Dict.GetDistinct(out, n + 2);
  }

  /** ... and the names the program writes are as distinct as the keys. */
  lemma ThemeDictNamesDistinct(d: ThemeDict, ansi: seq<Rgb>, theme: Theme)
    requires RolesOnly(d)
    requires forall i :: 0 <= i < |d| ==> PlainName(d[i].0.name)
    requires StatusSlots(theme).1 < |ansi|
    ensures var out := d + AnsiEntries(ansi) + StatusEntries(ansi, theme);
      Dict.DistinctKeys(out) ==> forall i, j :: 0 <= i < j < |out| ==> KeyName(out[i].0) != KeyName(out[j].0)
  {
    var out := d + AnsiEntries(ansi) + StatusEntries(ansi, theme);
    forall i | 0 <= i < |out|
      ensures out[i].0.Role? ==> PlainName(out[i].0.name)
    {
      ThemeDictKeyAt(d, ansi, theme, i);
    }
    if Dict.DistinctKeys(out) {
      forall i, j | 0 <= i < j < |out|
        ensures KeyName(out[i].0) != KeyName(out[j].0)
      {
        if KeyName(out[i].0) == KeyName(out[j].0) {
          KeyNameInjective(out[i].0, out[j].0);
        }
      }
    }
  }

  /** The role literal, as a dictionary: ten distinct roles with plain
      names, the tertiary background third. */
  lemma RoleDictShape(r: RoleColours)
    ensures var d := RoleDict(r);
      && RolesOnly(d) && Dict.DistinctKeys(d)
      && (forall i :: 0 <= i < |d| ==> PlainName(d[i].0.name))
      && Dict.Keys(d) == RoleKeys(RoleNames)
      && |d| == 10 && d[2] == (Role("bg-tertiary"), r.bgTertiary)
  {
    RoleDictRoles(r);
    RoleDictKeys(r);
    RoleDictDistinct(r);
  }

  /** Assembling: the roles, the ANSI entries and the three status entries
      when the list reaches the theme's last status slot, and KeyError
      naming the first missing slot when it does not. */
  lemma AssembleOutcome(r: RoleColours, ansi: seq<Rgb>, theme: Theme)
    ensures var (e, w, _) := StatusSlots(theme);
      && (w < |ansi| ==> Assemble(r, ansi, theme) == Ok(RoleDict(r) + AnsiEntries(ansi) + StatusEntries(ansi, theme)))
      && (|ansi| <= w ==> Assemble(r, ansi, theme) == Err(KeyError(KeyName(Ansi(if |ansi| <= e then e else w)))))
  {
    RoleDictRoles(r);
    WithAnsiAppends(RoleDict(r), ansi);
    AnsiPartReady(RoleDict(r), ansi);
    if StatusSlots(theme).1 < |ansi| {
      WithStatusAppends(RoleDict(r) + AnsiEntries(ansi), ansi, theme);
    } else {
      WithStatusMissing(RoleDict(r) + AnsiEntries(ansi), ansi, theme);
    }
  }

  /** An assembled dictionary holds exactly the ten roles, one `ansi-<i>`
      per ANSI colour and the three status keys, in that order and under
      distinct names; the status colours are the theme's slots of the ANSI
      list and the tertiary background is the role's. */
  lemma AssembleKeys(r: RoleColours, ansi: seq<Rgb>, theme: Theme)
    ensures var res := Assemble(r, ansi, theme);
      res.Ok? ==>
        var (e, w, s) := StatusSlots(theme);
        var out := res.value;
        && w < |ansi|
        && Dict.Keys(out) == RoleKeys(RoleNames) + AnsiKeys(|ansi|) + StatusKeys
        && Dict.DistinctKeys(out)
        && (forall i, j :: 0 <= i < j < |out| ==> KeyName(out[i].0) != KeyName(out[j].0))
        && (forall j :: 0 <= j < |ansi| ==> Dict.Get(out, Ansi(j)) == Some(ansi[j]))
        && Dict.Get(out, Status(Error)) == Some(ansi[e])
        && Dict.Get(out, Status(Warning)) == Some(ansi[w])
        && Dict.Get(out, Status(Success)) == Some(ansi[s])
        && Dict.Get(out, Role("bg-tertiary")) == Some(r.bgTertiary)
  {
    AssembleOutcome(r, ansi, theme);
    if StatusSlots(theme).1 < |ansi| {
      AssembledFacts(r, ansi, theme);
    }
  }

  /** The facts of `AssembleKeys` about the assembled entries themselves. */
  lemma AssembledFacts(r: RoleColours, ansi: seq<Rgb>, theme: Theme)
    requires StatusSlots(theme).1 < |ansi|
    ensures var (e, w, s) := StatusSlots(theme);
      var out := RoleDict(r) + AnsiEntries(ansi) + StatusEntries(ansi, theme);
      && Dict.Keys(out) == RoleKeys(RoleNames) + AnsiKeys(|ansi|) + StatusKeys
      && Dict.DistinctKeys(out)
      && (forall i, j :: 0 <= i < j < |out| ==> KeyName(out[i].0) != KeyName(out[j].0))
      && (forall j :: 0 <= j < |ansi| ==> Dict.Get(out, Ansi(j)) == Some(ansi[j]))
      && Dict.Get(out, Status(Error)) == Some(ansi[e])
      && Dict.Get(out, Status(Warning)) == Some(ansi[w])
      && Dict.Get(out, Status(Success)) == Some(ansi[s])
      && Dict.Get(out, Role("bg-tertiary")) == Some(r.bgTertiary)
  {
    var roles := RoleDict(r);
    RoleDictShape(r);
    var out := roles + AnsiEntries(ansi) + StatusEntries(ansi, theme);
    ThemeDictKeys(roles, ansi, theme);
    ThemeDictDistinct(roles, ansi, theme);
    ThemeDictNamesDistinct(roles, ansi, theme);
    ThemeDictStatusReads(roles, ansi, theme);
    forall j | 0 <= j < |ansi|
      ensures Dict.Get(out, Ansi(j)) == Some(ansi[j])
    {
      ThemeDictAnsiReads(roles, ansi, theme, j);
    }
    KeyAtRole(roles, ansi, StatusEntries(ansi, theme), 2);
    assert out[2] == roles[2];
    Dict.GetDistinct(out, 2);
  }

  /** `assign_color` raises ValueError for fewer than eight colours and
      for a theme type other than "auto", "light" or "dark", and only
      then. */
  lemma AssignColorRejects(pc: Gamma.PowerCurves, colors: seq<ColorData>, themeType: string, presorted: bool,
                           bgTertiary: Rgb, ansi: seq<Rgb>)
    requires Gamma.Faithful(pc)
    ensures var res := AssignColor(pc, colors, themeType, presorted, bgTertiary, ansi);
      (res.Err? && res.fault.ValueError?) <==> |colors| < MinColors || !ValidThemeType(themeType)
    ensures |colors| < MinColors ==>
      AssignColor(pc, colors, themeType, presorted, bgTertiary, ansi) == Err(ValueError(TooFewColors(|colors|)))
    ensures |colors| >= MinColors && !ValidThemeType(themeType) ==>
      AssignColor(pc, colors, themeType, presorted, bgTertiary, ansi) == Err(ValueError(NotAThemeType(themeType)))
  {
    if |colors| >= MinColors && ValidThemeType(themeType) {
      AssignColorOutcome(pc, colors, themeType, presorted, bgTertiary, ansi);
    }
  }

  /** Past validation: the ten roles, the ANSI entries and the three
      status entries when the list reaches the theme's last status slot,
      and KeyError naming the first missing slot when it does not. */
  lemma AssignColorOutcome(pc: Gamma.PowerCurves, colors: seq<ColorData>, themeType: string, presorted: bool,
                           bgTertiary: Rgb, ansi: seq<Rgb>)
    requires Gamma.Faithful(pc)
    requires |colors| >= MinColors && ValidThemeType(themeType)
    ensures var res := AssignColor(pc, colors, themeType, presorted, bgTertiary, ansi);
      var palette := Arrange(pc, colors, presorted);
      var theme := ChooseTheme(pc, palette, themeType);
      var (e, w, _) := StatusSlots(theme);
      && (w < |ansi| ==>
            res == Ok(RoleDict(AssignRoles(pc, palette, theme, bgTertiary)) + AnsiEntries(ansi) + StatusEntries(ansi, theme)))
      && (|ansi| <= w ==> res == Err(KeyError(KeyName(Ansi(if |ansi| <= e then e else w)))))
  {
    var palette := Arrange(pc, colors, presorted);
    var theme := ChooseTheme(pc, palette, themeType);
    var r := AssignRoles(pc, palette, theme, bgTertiary);
    assert AssignColor(pc, colors, themeType, presorted, bgTertiary, ansi) == Assemble(r, ansi, theme);
    AssembleOutcome(r, ansi, theme);
  }

  /** What a dictionary `assign_color` returns holds, from the assembled
      shape. */
  lemma AssignColorKeys(pc: Gamma.PowerCurves, colors: seq<ColorData>, themeType: string, presorted: bool,
                        bgTertiary: Rgb, ansi: seq<Rgb>)
    requires Gamma.Faithful(pc)
    ensures var res := AssignColor(pc, colors, themeType, presorted, bgTertiary, ansi);
      res.Ok? ==>
        var theme := ChooseTheme(pc, Arrange(pc, colors, presorted), themeType);
        var (e, w, s) := StatusSlots(theme);
        var out := res.value;
        && w < |ansi|
        && Dict.Keys(out) == RoleKeys(RoleNames) + AnsiKeys(|ansi|) + StatusKeys
        && Dict.DistinctKeys(out)
        && (forall i, j :: 0 <= i < j < |out| ==> KeyName(out[i].0) != KeyName(out[j].0))
        && Dict.Get(out, Status(Error)) == Some(ansi[e])
        && Dict.Get(out, Status(Warning)) == Some(ansi[w])
        && Dict.Get(out, Status(Success)) == Some(ansi[s])
        && Dict.Get(out, Role("bg-tertiary")) == Some(bgTertiary)
  {
    if |colors| >= MinColors && ValidThemeType(themeType) {
      var palette := Arrange(pc, colors, presorted);
      var theme := ChooseTheme(pc, palette, themeType);
      AssembleKeys(AssignRoles(pc, palette, theme, bgTertiary), ansi, theme);
    }
  }

  // ---- The three-way unpacking of the backgrounds, as written ----------

  /** `a, b, c = t` for a tuple t held as a sequence: ValueError unless it
      has exactly three items. */
  function UnpackThree(t: seq<Rgb>): (res: Result<(Rgb, Rgb, Rgb)>)
    ensures res.Ok? <==> |t| == 3
    ensures res.Ok? ==> [res.value.0, res.value.1, res.value.2] == t
  {
    if |t| < 3 then Err(ValueError("not enough values to unpack"))
    else if |t| > 3 then Err(ValueError("too many values to unpack"))
    else Ok((t[0], t[1], t[2]))
  }

  /** `assign_color` as written, up to the statement that unpacks
      `_assign_bg`'s result into three backgrounds: `_assign_bg` returns
      two, so the statement raises and nothing after it runs. The result is
      the three backgrounds the rest of the code would use. The module's
      imports of `_assign_accent` and `_assign_ansi_colors`, which name
      nothing `assign_logic` defines, are taken as resolved: as written
      they fail before any call is made. */
  function AssignColorAsWritten(pc: Gamma.PowerCurves, colors: seq<ColorData>, themeType: string,
                                presorted: bool): (res: Result<(Rgb, Rgb, Rgb)>)
    requires Gamma.Faithful(pc)
  {
    if |colors| < MinColors then Err(ValueError(TooFewColors(|colors|)))
    else if !ValidThemeType(themeType) then Err(ValueError(NotAThemeType(themeType)))
    else
      var palette := Arrange(pc, colors, presorted);
      var theme := ChooseTheme(pc, palette, themeType);
      var bg := AssignBg(pc, palette, theme);
      UnpackThree([bg.0, bg.1])
  }

  /** As written, no input yields a theme: every call raises ValueError. */
  lemma AsWrittenNeverAssigns(pc: Gamma.PowerCurves, colors: seq<ColorData>, themeType: string,
                              presorted: bool)
    requires Gamma.Faithful(pc)
    ensures AssignColorAsWritten(pc, colors, themeType, presorted).Err?
    ensures AssignColorAsWritten(pc, colors, themeType, presorted).fault.ValueError?
  {
  }

  /** With a third background supplied, the corrected `AssignColor` does
      yield a theme for every valid input whose ANSI list reaches the
      status slots. */
  lemma CorrectedAssigns(pc: Gamma.PowerCurves, colors: seq<ColorData>, themeType: string,
                         presorted: bool, bgTertiary: Rgb, ansi: seq<Rgb>)
    requires Gamma.Faithful(pc)
    requires |colors| >= MinColors && ValidThemeType(themeType) && |ansi| >= 12
    ensures AssignColor(pc, colors, themeType, presorted, bgTertiary, ansi).Ok?
  {
    AssignColorOutcome(pc, colors, themeType, presorted, bgTertiary, ansi);
  }
}
