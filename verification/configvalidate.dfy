/** The configuration validator of `config/validate.py`.
    Each check returns the problems it logs as `Issue` values, so the
    error count the Python function returns is the length of the list.
    A check that Python would abort with an exception returns `Err`.
    File-system and environment queries come in through a `Host`. */
module ConfigValidate {
  import opened Wrappers
  import Dict
  import Text
  import Paths
  import opened Toml
  import PaletteGenerator

  type Options = Dict.Dict<string, Value>

  /** The Python type a schema rule asks for. */
  datatype Kind = StrKind | BoolKind | ListKind | TableKind

  datatype Rule = Rule(kind: Kind, required: bool)

  type Schema = Dict.Dict<string, Rule>

  const ThemeTypes: seq<string> := ["auto", "light", "dark"]

  const GlobalSchema: Schema := [
    ("wallpaper-command", Rule(StrKind, false)),
    ("theme-type", Rule(StrKind, false)),
    ("reload-commands", Rule(ListKind, false)),
    ("use-shell", Rule(BoolKind, false)),
    ("log-output", Rule(BoolKind, false))]

  const ApplicationSchema: Schema := [
    ("enabled", Rule(BoolKind, true)),
    ("color-format", Rule(StrKind, true)),
    ("output-file", Rule(StrKind, true)),
    ("syntax", Rule(StrKind, true)),
    ("remap-colors", Rule(BoolKind, false)),
    ("template", Rule(StrKind, false)),
    ("colors", Rule(TableKind, false))]

  /** The colour names a remapped colour may take as its source. */
  const AvailableColors: seq<string> := [
    "bg-primary", "bg-secondary", "bg-tertiary",
    "text-primary", "text-secondary", "text-tertiary",
    "accent-primary", "accent-secondary",
    "error-color", "warning-color", "success-color",
    "border-active", "border-inactive",
    "ansi-0", "ansi-1", "ansi-2", "ansi-3", "ansi-4", "ansi-5", "ansi-6", "ansi-7",
    "ansi-8", "ansi-9", "ansi-10", "ansi-11", "ansi-12", "ansi-13", "ansi-14", "ansi-15"]

  const Transformations: seq<string> := ["hue", "contrast", "saturation", "opacity", "temperature", "brightness"]

  /** A transformation's accepted amounts: `[min, max]`, with no upper
      bound for `float("inf")`; `integral` asks for `int` rather than
      `(int, float)`. */
  datatype Bound = Bound(min: int, max: Option<int>, integral: bool)

  /** `TRANSFORMATION_VALIDATORS.get(t)`. */
  function BoundOf(t: string): Option<Bound>
  {
    if t == "hue" then Some(Bound(-360, Some(360), true))
    else if t == "saturation" then Some(Bound(0, None, false))
    else if t == "opacity" then Some(Bound(0, Some(1), false))
    else if t == "brightness" then Some(Bound(0, None, false))
    else if t == "temperature" then Some(Bound(-100, Some(100), true))
    else if t == "contrast" then Some(Bound(0, None, false))
    else None
  }

  /** What the validator asks of the machine it runs on: `_expand_path`
      (`~` and `$VAR` expansion), `get_luminol_dir()` (`None` when it
      raises), `Path.exists`, `os.access(_, W_OK)` and `Path.is_file`. */
  datatype Host = Host(
    expand: string -> string,
    luminolDir: Option<string>,
    dirExists: string -> bool,
    canWrite: string -> bool,
    isFile: string -> bool)

  /** One logged error. Its count is what the Python checks add up. */
  datatype Issue =
    | WrongType(option: string)
    | MissingOptions(missing: seq<string>)
    | EmptyOption(option: string)
    | BadFormat(format: Value)
    | BadThemeType(theme: Value)
    | NoSuchDirectory(dir: string)
    | CannotWrite(dir: string)
    | NoSuchTemplate(path: string)
    | NoPlaceholder
    | NoColorsTable
    | NotATable(color: string)
    | NoSource(color: string)
    | UnknownSource(color: string)
    | WrongAmountType(color: string, transformation: string)
    | OutOfRange(color: string, transformation: string)

  /** The exceptions a check can raise while inspecting values. */
  predicate Raised(f: Fault)
  {
    f.AttributeError? || f.TypeError? || f.FileNotFoundError?
  }

  /** The message of the `TypeError` `Path(v)` raises for a non-string. */
  function PathTypeError(v: Value): string
  {
    "expected str, bytes or os.PathLike object, not " + TypeName(v)
  }

  /** The message of the `AttributeError` for a missing method. */
  function NoAttribute(v: Value, name: string): string
  {
    "'" + TypeName(v) + "' object has no attribute '" + name + "'"
  }

  /** The message of the `TypeError` that `x in v` raises for a number. */
  function NotIterable(v: Value): string
  {
    "argument of type '" + TypeName(v) + "' is not iterable"
  }

  // ---------------------------------------------------------------------
  // Schema checks: `_validate_datatypes`, `_validate_mandatory_options`,
  // `_warn_unsupported_options`.

  predicate HasKind(v: Value, k: Kind)
  {
    match k
    case StrKind => v.Str?
    case BoolKind => v.Bool?
    case ListKind => v.List?
    case TableKind => v.Table?
  }

  /** The schema has a rule for `key` and `v` is not of its type. */
  predicate Mistyped(schema: Schema, key: string, v: Value)
  {
    match Dict.Get(schema, key)
    case None => false
    case Some(rule) => !HasKind(v, rule.kind)
  }

  /** Every option the schema knows has the type the schema gives it. */
  predicate WellTyped(options: Options, schema: Schema)
  {
    forall i :: 0 <= i < |options| ==> !Mistyped(schema, options[i].0, options[i].1)
  }

  /** `_validate_datatypes`: one issue per mistyped option, in the
      options' order; options the schema does not know are let through. */
  function ValidateDatatypes(options: Options, schema: Schema): (issues: seq<Issue>)
    ensures |issues| <= |options|
    ensures issues == [] <==> WellTyped(options, schema)
    ensures forall e :: e in issues ==>
      e.WrongType? && exists i :: 0 <= i < |options| && options[i].0 == e.option && Mistyped(schema, options[i].0, options[i].1)
    ensures forall i :: 0 <= i < |options| && Mistyped(schema, options[i].0, options[i].1) ==> WrongType(options[i].0) in issues
  {
    if |options| == 0 then []
    else
      var rest := ValidateDatatypes(options[1..], schema);
      assert forall i :: 1 <= i < |options| ==> options[i] == options[1..][i - 1];
      if Mistyped(schema, options[0].0, options[0].1) then [WrongType(options[0].0)] + rest else rest
  }

  /** The option is required by the schema. */
  predicate Required(schema: Schema, key: string)
  {
    exists i :: 0 <= i < |schema| && schema[i].0 == key && schema[i].1.required
  }

  /** The required options missing from `options`, in schema order. */
  function MissingRequired(options: Options, schema: Schema): (missing: seq<string>)
    ensures forall k :: k in missing ==> Required(schema, k) && !Dict.HasKey(options, k)
    ensures forall i :: 0 <= i < |schema| && schema[i].1.required && !Dict.HasKey(options, schema[i].0) ==>
      schema[i].0 in missing
  {
    if |schema| == 0 then []
    else
      var rest := MissingRequired(options, schema[1..]);
      assert forall i :: 1 <= i < |schema| ==> schema[i] == schema[1..][i - 1];
      if schema[0].1.required && !Dict.HasKey(options, schema[0].0) then [schema[0].0] + rest else rest
  }

  /** Every option the schema requires is present. */
  predicate HasRequired(options: Options, schema: Schema)
  {
    forall i :: 0 <= i < |schema| && schema[i].1.required ==> Dict.HasKey(options, schema[i].0)
  }

  /** `_validate_mandatory_options`: at most one issue, listing every
      missing required option. */
  function ValidateMandatory(options: Options, schema: Schema): (issues: seq<Issue>)
    ensures |issues| <= 1
    ensures issues == [] <==> HasRequired(options, schema)
    ensures forall e :: e in issues ==>
      (e.MissingOptions? && |e.missing| > 0
       && forall k :: k in e.missing ==> Required(schema, k) && !Dict.HasKey(options, k))
  {
    var missing := MissingRequired(options, schema);
    if |missing| == 0 then []
    else
      assert missing[0] in missing;
      [MissingOptions(missing)]
  }

  /** `_warn_unsupported_options`: the options the schema does not know.
      They are only warned about; no check counts them. */
  function UnsupportedOptions(options: Options, schema: Schema): (unknown: set<string>)
    ensures forall k :: k in unknown <==> Dict.HasKey(options, k) && !Dict.HasKey(schema, k)
  {
    set i | 0 <= i < |options| && !Dict.HasKey(schema, options[i].0) :: options[i].0
  }

  /** An entry the schema does not type adds no type issue. */
  lemma {:induction false} DatatypesAppend(options: Options, schema: Schema, x: (string, Value))
    requires !Mistyped(schema, x.0, x.1)
    ensures ValidateDatatypes(options + [x], schema) == ValidateDatatypes(options, schema)
  {
    if |options| > 0 {
      assert (options + [x])[1..] == options[1..] + [x];
      DatatypesAppend(options[1..], schema, x);
    }
  }

  /** An entry under a key the schema does not list leaves the missing
      options as they were. */
  lemma {:induction false} MissingAppend(options: Options, schema: Schema, x: (string, Value))
    requires forall i :: 0 <= i < |schema| ==> schema[i].0 != x.0
    ensures MissingRequired(options + [x], schema) == MissingRequired(options, schema)
  {
    if |schema| > 0 {
      Dict.HasKeyAppend(options, x, schema[0].0);
      assert forall i :: 0 <= i < |schema[1..]| ==> schema[1..][i] == schema[i + 1];
      MissingAppend(options, schema[1..], x);
    }
  }

  // ---------------------------------------------------------------------
  // `_validate_string_options`.

  /** The option is present but not a string, so `.strip()` raises. */
  predicate NotString(options: Options, key: string)
  {
    match Dict.Get(options, key)
    case None => false
    case Some(v) => !v.Str?
  }

  /** The option is a string of whitespace only. */
  predicate BlankOption(options: Options, key: string)
  {
    match Dict.Get(options, key)
    case None => false
    case Some(v) => v.Str? && Text.Strip(v.s) == ""
  }

  /** The loop of `_validate_string_options` over `names`. */
  function CheckNotBlank(options: Options, names: seq<string>): (r: Result<seq<Issue>>)
    ensures r.Err? <==> exists k :: k in names && NotString(options, k)
    ensures r.Err? ==> r.fault.AttributeError?
    ensures r.Ok? ==> forall e :: e in r.value ==> e.EmptyOption? && e.option in names && BlankOption(options, e.option)
    ensures r.Ok? ==> forall k :: k in names && BlankOption(options, k) ==> EmptyOption(k) in r.value
  {
    if |names| == 0 then Ok([])
    else
      var k := names[0];
      assert forall x :: x in names <==> x == k || x in names[1..];
      match Dict.Get(options, k)
      case None => CheckNotBlank(options, names[1..])
      case Some(v) =>
        if !v.Str? then
          assert NotString(options, k);
          Err(AttributeError(NoAttribute(v, "strip")))
        else
          match CheckNotBlank(options, names[1..])
          case Err(f) => Err(f)
          case Ok(rest) => Ok((if Text.Strip(v.s) == "" then [EmptyOption(k)] else []) + rest)
  }

  /** The options the application schema marks as required strings, in
      schema order. */
  const StringOptions: seq<string> := ["color-format", "output-file", "syntax"]

  /** No required string option is blank. */
  predicate NoBlank(options: Options)
  {
    forall k :: k in StringOptions ==> !BlankOption(options, k)
  }

  predicate StringCrash(options: Options)
  {
    exists k :: k in StringOptions && NotString(options, k)
  }

  /** `_validate_string_options`. */
  function ValidateStringOptions(options: Options): (r: Result<seq<Issue>>)
    ensures r.Err? <==> StringCrash(options)
    ensures r.Ok? ==> (r.value == [] <==> NoBlank(options))
    ensures r.Ok? ==> forall e :: e in r.value ==> e.EmptyOption? && BlankOption(options, e.option)
  {
    var r := CheckNotBlank(options, StringOptions);
    assert r.Ok? && r.value != [] ==> r.value[0] in r.value;
    r
  }

  // ---------------------------------------------------------------------
  // `_validate_color_format`.

  /** An absent or falsy format passes (the string check reports an empty
      one); anything else must be one of the supported format names. */
  predicate FormatOk(options: Options)
  {
    match Dict.Get(options, "color-format")
    case None => true
    case Some(v) => !Truthy(v) || (v.Str? && v.s in PaletteGenerator.SupportedFormats)
  }

  function ValidateColorFormat(options: Options): (issues: seq<Issue>)
    ensures issues == [] <==> FormatOk(options)
    ensures issues != [] ==> issues == [BadFormat(Dict.Get(options, "color-format").value)]
  {
    match Dict.Get(options, "color-format")
    case None => []
    case Some(v) => if Truthy(v) && !(v.Str? && v.s in PaletteGenerator.SupportedFormats) then [BadFormat(v)] else []
  }

  /** The validator accepts a non-empty format name exactly when the
      palette generator can convert colours to it. */
  lemma FormatAgreesWithConverter(options: Options, fmt: string, p: PaletteGenerator.Paint, showFloat: real -> string)
    requires Dict.Get(options, "color-format") == Some(Str(fmt)) && fmt != ""
    ensures ValidateColorFormat(options) == [] <==> PaletteGenerator.ConvertFormat(p, fmt, showFloat).Ok?
  {
  }

  // ---------------------------------------------------------------------
  // `_validate_output_file`.

  /** The directory the output file would be written to. */
  function OutputDir(host: Host, path: string): string
  {
    Paths.Parent(host.expand(path))
  }

  predicate OutputCrash(options: Options)
  {
    var o := Dict.Get(options, "output-file");
    o.Some? && Truthy(o.value) && !o.value.Str?
  }

  /** A bare file name, or a path whose directory exists and is writable;
      an absent or empty value is left to the other checks. */
  predicate OutputOk(host: Host, options: Options)
  {
    match Dict.Get(options, "output-file")
    case None => true
    case Some(v) =>
      !Truthy(v) || !v.Str? || Paths.IsFileName(v.s)
      || (host.dirExists(OutputDir(host, v.s)) && host.canWrite(OutputDir(host, v.s)))
  }

  function ValidateOutputFile(host: Host, options: Options): (r: Result<seq<Issue>>)
    ensures r.Err? <==> OutputCrash(options)
    ensures r.Err? ==> r.fault.TypeError?
    ensures r.Ok? ==> (r.value == [] <==> OutputOk(host, options))
    ensures r.Ok? && r.value != [] ==>
      var path := Dict.Get(options, "output-file").value.s;
      var dir := OutputDir(host, path);
      && !Paths.IsFileName(path)
      && ((r.value == [NoSuchDirectory(dir)] && !host.dirExists(dir))
          || (r.value == [CannotWrite(dir)] && host.dirExists(dir) && !host.canWrite(dir)))
  {
    match Dict.Get(options, "output-file")
    case None => Ok([])
    case Some(v) =>
      if !Truthy(v) then Ok([])
      else if !v.Str? then Err(TypeError(PathTypeError(v)))
      else if Paths.IsFileName(v.s) then Ok([])
      else
        var dir := OutputDir(host, v.s);
        if !host.dirExists(dir) then Ok([NoSuchDirectory(dir)])
        else if !host.canWrite(dir) then Ok([CannotWrite(dir)])
        else Ok([])
  }

  /** An output name without a slash is accepted whatever the host. */
  lemma BareOutputAccepted(host: Host, options: Options, name: string)
    requires Dict.Get(options, "output-file") == Some(Str(name)) && '/' !in name
    ensures ValidateOutputFile(host, options) == Ok([])
  {
    Paths.BareNameIsFileName(name);
  }

  /** `dir/name`, with nothing to expand, is accepted exactly when `dir`
      exists and is writable. */
  lemma NestedOutput(host: Host, options: Options, dir: string, name: string)
    requires '/' !in dir && '/' !in name
    requires dir != "" && dir != "." && name != "" && name != "."
    requires Dict.Get(options, "output-file") == Some(Str(dir + "/" + name))
    requires host.expand(dir + "/" + name) == dir + "/" + name
    ensures ValidateOutputFile(host, options) == Ok([]) <==> host.dirExists(dir) && host.canWrite(dir)
  {
    Paths.NestedName(dir, name);
  }

  // ---------------------------------------------------------------------
  // `_validate_template_and_syntax`.

  /** Where a template is looked for: under `<luminol dir>/templates` for
      a bare file name, otherwise at the expanded path. `None` when the
      luminol directory cannot be found. */
  function TemplatePath(host: Host, template: string): Option<string>
  {
    if Paths.IsFileName(template) then
      match host.luminolDir
      case None => None
      case Some(d) => Some(d + "/templates/" + template)
    else Some(host.expand(template))
  }

  /** `options.get("syntax", "")`. */
  function SyntaxOf(options: Options): Value
  {
    match Dict.Get(options, "syntax")
    case None => Str("")
    case Some(v) => v
  }

  predicate Iterable(v: Value)
  {
    v.Str? || v.List? || v.Table?
  }

  predicate TemplateCrash(host: Host, options: Options)
  {
    var t := Dict.Get(options, "template");
    if t.Some? && Truthy(t.value) then
      !t.value.Str? || TemplatePath(host, t.value.s).None? || !Iterable(SyntaxOf(options))
    else Truthy(SyntaxOf(options)) && !Iterable(SyntaxOf(options))
  }

  /** With a template, the template file exists and the syntax mentions
      `placeholder`; without one, nothing is required of the syntax. */
  predicate TemplateOk(host: Host, options: Options)
  {
    var t := Dict.Get(options, "template");
    t.Some? && Truthy(t.value) && t.value.Str? && TemplatePath(host, t.value.s).Some? ==>
      host.isFile(TemplatePath(host, t.value.s).value) && Member("placeholder", SyntaxOf(options)) == Some(true)
  }

  function ValidateTemplateAndSyntax(host: Host, options: Options): (r: Result<seq<Issue>>)
    ensures r.Err? <==> TemplateCrash(host, options)
    ensures r.Err? ==> Raised(r.fault)
    ensures r.Ok? ==> (r.value == [] <==> TemplateOk(host, options))
    ensures var t := Dict.Get(options, "template");
      r.Ok? && (t.None? || !Truthy(t.value)) ==> r.value == []
    ensures r.Ok? ==> forall e :: e in r.value ==>
      || (e.NoSuchTemplate? && !host.isFile(e.path)
          && TemplatePath(host, Dict.Get(options, "template").value.s) == Some(e.path))
      || (e.NoPlaceholder? && Member("placeholder", SyntaxOf(options)) == Some(false))
  {
    var syntax := SyntaxOf(options);
    var t := Dict.Get(options, "template");
    if t.Some? && Truthy(t.value) then
      if !t.value.Str? then Err(TypeError(PathTypeError(t.value)))
      else
        match TemplatePath(host, t.value.s)
        case None => Err(FileNotFoundError("No luminol directory found."))
        case Some(path) =>
          match Member("placeholder", syntax)
          case None => Err(TypeError(NotIterable(syntax)))
          case Some(has) =>
            Ok((if host.isFile(path) then [] else [NoSuchTemplate(path)]) + (if has then [] else [NoPlaceholder]))
    else if Truthy(syntax) && !Iterable(syntax) then Err(TypeError(NotIterable(syntax)))
    else Ok([])
  }

  /** The tokens a syntax without a template is warned about lacking. */
  function MissingTokens(syntax: string): (missing: seq<string>)
    ensures forall k :: k in missing <==> (k == "{name}" || k == "{color}") && !Text.Contains(syntax, k)
  {
    (if Text.Contains(syntax, "{name}") then [] else ["{name}"])
    + (if Text.Contains(syntax, "{color}") then [] else ["{color}"])
  }

  // ---------------------------------------------------------------------
  // `_validate_remap_colors`.

  /** `min_val <= amount <= max_val`. */
  predicate InRange(x: real, b: Bound)
  {
    b.min as real <= x && (b.max.None? || x <= b.max.value as real)
  }

  /** The type the transformation's validator asks for. */
  predicate AmountTyped(v: Value, b: Bound)
  {
    if b.integral then IsInt(v) else IsNumber(v)
  }

  /** One `(transformation, amount)` pair passes: it is the source, a
      transformation the validator does not know (only warned about), or
      an amount of the right type within range. */
  predicate AmountOk(t: string, v: Value)
  {
    t == "source" || BoundOf(t).None?
    || (AmountTyped(v, BoundOf(t).value) && InRange(NumberOf(v), BoundOf(t).value))
  }

  function AmountIssue(color: string, t: string, v: Value, b: Bound): (issues: seq<Issue>)
  {
    if !AmountTyped(v, b) then [WrongAmountType(color, t)]
    else if InRange(NumberOf(v), b) then []
    else [OutOfRange(color, t)]
  }

  /** The inner loop over a colour's transformations. */
  function AmountIssues(color: string, entries: Options): (issues: seq<Issue>)
    ensures issues == [] <==> forall i :: 0 <= i < |entries| ==> AmountOk(entries[i].0, entries[i].1)
    ensures forall e :: e in issues ==>
      ((e.WrongAmountType? || e.OutOfRange?) && e.color == color
       && exists i :: 0 <= i < |entries| && entries[i].0 == e.transformation && !AmountOk(entries[i].0, entries[i].1))
  {
    if |entries| == 0 then []
    else
      var (t, v) := entries[0];
      var rest := AmountIssues(color, entries[1..]);
      assert forall i :: 1 <= i < |entries| ==> entries[i] == entries[1..][i - 1];
      if t == "source" || t !in Transformations then rest
      else
        match BoundOf(t)
        case None => rest
        case Some(b) => AmountIssue(color, t, v, b) + rest
  }

  /** The source is present, truthy and one of the available colours. */
  predicate SourceOk(entries: Options)
  {
    match Dict.Get(entries, "source")
    case None => false
    case Some(s) => Truthy(s) && s.Str? && s.s in AvailableColors
  }

  function SourceIssues(color: string, entries: Options): (issues: seq<Issue>)
    ensures issues == [] <==> SourceOk(entries)
    ensures |issues| <= 1
    ensures issues == [NoSource(color)] <==> !Dict.Get(entries, "source").Some? || !Truthy(Dict.Get(entries, "source").value)
  {
    match Dict.Get(entries, "source")
    case None => [NoSource(color)]
    case Some(s) =>
      if !Truthy(s) then [NoSource(color)]
      else if s.Str? && s.s in AvailableColors then []
      else [UnknownSource(color)]
  }

  /** A remapped colour passes: it is a table with a good source and good
      amounts. */
  predicate ColorOk(v: Value)
  {
    v.Table? && SourceOk(v.entries)
    && forall i :: 0 <= i < |v.entries| ==> AmountOk(v.entries[i].0, v.entries[i].1)
  }

  predicate AboutColor(e: Issue)
  {
    e.NotATable? || e.NoSource? || e.UnknownSource? || e.WrongAmountType? || e.OutOfRange?
  }

  function ColorIssues(color: string, v: Value): (issues: seq<Issue>)
    ensures issues == [] <==> ColorOk(v)
    ensures forall e :: e in issues ==> AboutColor(e) && e.color == color
  {
    if !v.Table? then [NotATable(color)]
    else SourceIssues(color, v.entries) + AmountIssues(color, v.entries)
  }

  /** Some colour of that name in the table fails. */
  predicate Faulty(table: Options, color: string)
  {
    exists i :: 0 <= i < |table| && table[i].0 == color && !ColorOk(table[i].1)
  }

  /** A colour failing in the rest of the table fails in the table. */
  lemma FaultyTail(table: Options, color: string)
    requires |table| > 0 && Faulty(table[1..], color)
    ensures Faulty(table, color)
  {
    var i :| 0 <= i < |table[1..]| && table[1..][i].0 == color && !ColorOk(table[1..][i].1);
    assert table[i + 1] == table[1..][i];
  }

  /** The outer loop over the `colors` table. */
  function TableIssues(table: Options): (issues: seq<Issue>)
    ensures issues == [] <==> forall i :: 0 <= i < |table| ==> ColorOk(table[i].1)
    ensures forall e :: e in issues ==> AboutColor(e) && Faulty(table, e.color)
  {
    if |table| == 0 then []
    else
      var head := ColorIssues(table[0].0, table[0].1);
      var rest := TableIssues(table[1..]);
      assert forall i :: 1 <= i < |table| ==> table[i] == table[1..][i - 1];
      assert head != [] ==> Faulty(table, table[0].0);
      assert forall e :: e in rest ==> Faulty(table, e.color) by {
        forall e | e in rest
          ensures Faulty(table, e.color)
        {
          FaultyTail(table, e.color);
        }
      }
      head + rest
  }

  /** `options.get(key)` is truthy. */
  predicate Enabled(options: Options, key: string)
  {
    var v := Dict.Get(options, key);
    v.Some? && Truthy(v.value)
  }

  predicate RemapCrash(options: Options)
  {
    Enabled(options, "remap-colors") && Enabled(options, "colors") && !Dict.Get(options, "colors").value.Table?
  }

  /** Remapping is off, or the `colors` table is there and every colour
      in it passes. */
  predicate RemapOk(options: Options)
  {
    Enabled(options, "remap-colors") ==>
      Enabled(options, "colors")
      && var table := Dict.Get(options, "colors").value;
      table.Table? && forall i :: 0 <= i < |table.entries| ==> ColorOk(table.entries[i].1)
  }

  function ValidateRemapColors(options: Options): (r: Result<seq<Issue>>)
    ensures r.Err? <==> RemapCrash(options)
    ensures r.Err? ==> r.fault.AttributeError?
    ensures r.Ok? ==> (r.value == [] <==> RemapOk(options))
    ensures r.Ok? && !Enabled(options, "remap-colors") ==> r.value == []
    ensures r.Ok? ==> r.value == [NoColorsTable] || forall e :: e in r.value ==> AboutColor(e)
  {
    if !Enabled(options, "remap-colors") then Ok([])
    else if !Enabled(options, "colors") then Ok([NoColorsTable])
    else
      var table := Dict.Get(options, "colors").value;
      if !table.Table? then Err(AttributeError(NoAttribute(table, "items")))
      else Ok(TableIssues(table.entries))
  }

  /** The transformations with a validator are exactly the supported
      ones, so the validator lookup after the support check never misses. */
  lemma BoundsCoverTransformations(t: string)
    ensures t in Transformations <==> BoundOf(t).Some?
  {
  }

  // ---------------------------------------------------------------------
  // `validate_global_config` and `validate_application_config`.

  /** A truthy `theme-type` is one of auto, light and dark. */
  predicate ThemeOk(settings: Options)
  {
    match Dict.Get(settings, "theme-type")
    case None => true
    case Some(v) => !Truthy(v) || (v.Str? && v.s in ThemeTypes)
  }

  function GlobalIssues(settings: Options): (issues: seq<Issue>)
    ensures issues == [] <==> WellTyped(settings, GlobalSchema) && ThemeOk(settings)
  {
    ValidateDatatypes(settings, GlobalSchema)
    + match Dict.Get(settings, "theme-type")
      case Some(v) => if Truthy(v) && !(v.Str? && v.s in ThemeTypes) then [BadThemeType(v)] else []
      case None => []
  }

  /** `validate_global_config`: the section is valid when every known
      option has its type and a given theme type is a known one. */
  function ValidateGlobalConfig(settings: Options): (valid: bool)
    ensures valid <==> WellTyped(settings, GlobalSchema) && ThemeOk(settings)
  {
    |GlobalIssues(settings)| == 0
  }

  /** The checks that make `validate_application_config` raise. */
  predicate Crashes(host: Host, options: Options)
  {
    StringCrash(options) || OutputCrash(options) || TemplateCrash(host, options) || RemapCrash(options)
  }

  /** Every check of an application section passes. */
  predicate ApplicationValid(host: Host, options: Options)
  {
    && WellTyped(options, ApplicationSchema)
    && HasRequired(options, ApplicationSchema)
    && NoBlank(options)
    && FormatOk(options)
    && OutputOk(host, options)
    && TemplateOk(host, options)
    && RemapOk(options)
  }

  /** The checks of one application section, in the order Python runs
      them; the first that raises ends the validation. */
  function ValidateApplication(host: Host, options: Options): (r: Result<seq<Issue>>)
    ensures r.Err? <==> Crashes(host, options)
    ensures r.Err? ==> Raised(r.fault)
    ensures r.Ok? ==> (r.value == [] <==> ApplicationValid(host, options))
  {
    Sequence(
      ValidateDatatypes(options, ApplicationSchema) + ValidateMandatory(options, ApplicationSchema),
      ValidateStringOptions(options),
      ValidateColorFormat(options),
      ValidateOutputFile(host, options),
      ValidateTemplateAndSyntax(host, options),
      ValidateRemapColors(options))
  }

  /** Chains the checks' outcomes: the first `Err` wins, otherwise the
      issues are collected in order. */
  function Sequence(schema: seq<Issue>, strings: Result<seq<Issue>>, format: seq<Issue>,
                    output: Result<seq<Issue>>, template: Result<seq<Issue>>, remap: Result<seq<Issue>>): (r: Result<seq<Issue>>)
    ensures r.Err? <==> strings.Err? || output.Err? || template.Err? || remap.Err?
    ensures r.Err? ==> r == strings || r == output || r == template || r == remap
    ensures r.Ok? ==> r.value == schema + strings.value + format + output.value + template.value + remap.value
  {
    match strings
    case Err(f) => Err(f)
    case Ok(strings) =>
      match output
      case Err(f) => Err(f)
      case Ok(output) =>
        match template
        case Err(f) => Err(f)
        case Ok(template) =>
          match remap
          case Err(f) => Err(f)
          case Ok(remap) => Ok(schema + strings + format + output + template + remap)
  }

  /** Runs `check` on every section in order: the first `Err` ends the
      run, otherwise the result says whether every section passed. */
  function CheckAll<T>(check: T -> Result<seq<Issue>>, xs: seq<T>): (r: Result<bool>)
    ensures r.Err? <==> exists i :: 0 <= i < |xs| && check(xs[i]).Err?
    ensures r.Err? ==> exists i :: 0 <= i < |xs| && check(xs[i]) == Err(r.fault)
    ensures r.Ok? ==> (r.value <==> forall i :: 0 <= i < |xs| ==> check(xs[i]) == Ok([]))
  {
    if |xs| == 0 then Ok(true)
    else
      assert forall i :: 1 <= i < |xs| ==> xs[i] == xs[1..][i - 1];
      match check(xs[0])
      case Err(f) => Err(f)
      case Ok(issues) =>
        match CheckAll(check, xs[1..])
        case Err(f) => Err(f)
        case Ok(rest) => Ok(|issues| == 0 && rest)
  }

  /** Each section's checks raise exactly when `Crashes` says so and pass
      exactly when the section is valid. */
  lemma SectionChecks(host: Host, apps: seq<(string, Options)>)
    ensures forall i :: 0 <= i < |apps| ==>
      (ValidateApplication(host, apps[i].1).Err? <==> Crashes(host, apps[i].1))
    ensures forall i :: 0 <= i < |apps| ==>
      (ValidateApplication(host, apps[i].1) == Ok([]) <==> !Crashes(host, apps[i].1) && ApplicationValid(host, apps[i].1))
  {
  }

  /** Every section passes exactly when each is valid and raises nothing. */
  lemma ApplicationConfigOk(host: Host, apps: seq<(string, Options)>)
    ensures ValidateApplicationConfig(host, apps) == Ok(true) <==>
      forall i :: 0 <= i < |apps| ==> !Crashes(host, apps[i].1) && ApplicationValid(host, apps[i].1)
  {
  }

  /** `validate_application_config`: `Err` when some section's checks
      raise, otherwise whether every section is valid. */
  function ValidateApplicationConfig(host: Host, apps: seq<(string, Options)>): (r: Result<bool>)
    ensures r.Err? <==> exists i :: 0 <= i < |apps| && Crashes(host, apps[i].1)
    ensures r.Err? ==> Raised(r.fault)
    ensures r.Ok? ==> (r.value <==> forall i :: 0 <= i < |apps| ==> ApplicationValid(host, apps[i].1))
  {
    SectionChecks(host, apps);
    CheckAll((app: (string, Options)) => ValidateApplication(host, app.1), apps)
  }

  /** An entry appended under another key leaves a lookup unchanged. */
  lemma LookupUnchanged(options: Options, k: string, v: Value, key: string)
    requires k != key
    ensures Dict.Get(options + [(k, v)], key) == Dict.Get(options, key)
  {
    assert !Dict.HasKey([(k, v)], key);
    Dict.GetExtend(options, [(k, v)], key);
  }

  /** An option the application schema does not know is only warned
      about: adding it changes no check's outcome. */
  lemma UnknownOptionIgnored(host: Host, options: Options, k: string, v: Value)
    requires k !in ["enabled", "color-format", "output-file", "syntax", "remap-colors", "template", "colors"]
    ensures k in UnsupportedOptions(options + [(k, v)], ApplicationSchema)
    ensures ValidateApplication(host, options + [(k, v)]) == ValidateApplication(host, options)
  {
    var o := options + [(k, v)];
    SchemaIgnores(options, k, v);
    LookupUnchanged(options, k, v, "color-format");
    FormatSame(o, options);
    LookupUnchanged(options, k, v, "output-file");
    OutputSame(host, o, options);
    LookupUnchanged(options, k, v, "syntax");
    LookupUnchanged(options, k, v, "template");
    TemplateSame(host, o, options);
    LookupUnchanged(options, k, v, "remap-colors");
    LookupUnchanged(options, k, v, "colors");
    RemapSame(o, options);
    StringsSame(o, options);
    assert ValidateMandatory(o, ApplicationSchema) == ValidateMandatory(options, ApplicationSchema);
  }

  /** The schema checks ignore, and report, a key the schema lacks. */
  lemma SchemaIgnores(options: Options, k: string, v: Value)
    requires k !in ["enabled", "color-format", "output-file", "syntax", "remap-colors", "template", "colors"]
    ensures k in UnsupportedOptions(options + [(k, v)], ApplicationSchema)
    ensures ValidateDatatypes(options + [(k, v)], ApplicationSchema) == ValidateDatatypes(options, ApplicationSchema)
    ensures MissingRequired(options + [(k, v)], ApplicationSchema) == MissingRequired(options, ApplicationSchema)
  {
    assert forall i :: 0 <= i < |ApplicationSchema| ==> ApplicationSchema[i].0 != k;
    Dict.HasKeyAppend(options, (k, v), k);
    DatatypesAppend(options, ApplicationSchema, (k, v));
    MissingAppend(options, ApplicationSchema, (k, v));
  }

  lemma StringsSame(o1: Options, o2: Options)
    requires Dict.Get(o1, "color-format") == Dict.Get(o2, "color-format")
    requires Dict.Get(o1, "output-file") == Dict.Get(o2, "output-file")
    requires Dict.Get(o1, "syntax") == Dict.Get(o2, "syntax")
    ensures ValidateStringOptions(o1) == ValidateStringOptions(o2)
  {
    assert forall key :: key in StringOptions ==> Dict.Get(o1, key) == Dict.Get(o2, key);
    CheckNotBlankSame(o1, o2, StringOptions);
  }

  /** Each check reads only its own keys. */
  lemma FormatSame(o1: Options, o2: Options)
    requires Dict.Get(o1, "color-format") == Dict.Get(o2, "color-format")
    ensures ValidateColorFormat(o1) == ValidateColorFormat(o2)
  {
  }

  lemma OutputSame(host: Host, o1: Options, o2: Options)
    requires Dict.Get(o1, "output-file") == Dict.Get(o2, "output-file")
    ensures ValidateOutputFile(host, o1) == ValidateOutputFile(host, o2)
  {
  }

  lemma TemplateSame(host: Host, o1: Options, o2: Options)
    requires Dict.Get(o1, "template") == Dict.Get(o2, "template")
    requires Dict.Get(o1, "syntax") == Dict.Get(o2, "syntax")
    ensures ValidateTemplateAndSyntax(host, o1) == ValidateTemplateAndSyntax(host, o2)
  {
    assert SyntaxOf(o1) == SyntaxOf(o2);
  }

  lemma RemapSame(o1: Options, o2: Options)
    requires Dict.Get(o1, "remap-colors") == Dict.Get(o2, "remap-colors")
    requires Dict.Get(o1, "colors") == Dict.Get(o2, "colors")
    ensures ValidateRemapColors(o1) == ValidateRemapColors(o2)
  {
  }

  /** The string check only looks up the names it is given. */
  lemma {:induction false} CheckNotBlankSame(o1: Options, o2: Options, names: seq<string>)
    requires forall k :: k in names ==> Dict.Get(o1, k) == Dict.Get(o2, k)
    ensures CheckNotBlank(o1, names) == CheckNotBlank(o2, names)
  {
    if |names| > 0 {
      assert names[0] in names;
      CheckNotBlankSame(o1, o2, names[1..]);
    }
  }

  /** The same holds for the `[global]` section. */
  lemma UnknownGlobalIgnored(settings: Options, k: string, v: Value)
    requires !Dict.HasKey(GlobalSchema, k)
    ensures k in UnsupportedOptions(settings + [(k, v)], GlobalSchema)
    ensures ValidateGlobalConfig(settings + [(k, v)]) == ValidateGlobalConfig(settings)
  {
    Dict.HasKeyAppend(settings, (k, v), k);
    DatatypesAppend(settings, GlobalSchema, (k, v));
    assert k != "theme-type" by {
      assert GlobalSchema[1].0 == "theme-type";
    }
    assert !Dict.HasKey([(k, v)], "theme-type");
    Dict.GetExtend(settings, [(k, v)], "theme-type");
  }
}
