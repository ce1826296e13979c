/** The configuration objects of `config/parser.py`: the `[global]`
    section and the enabled application sections, each with a
    `validate()` that raises `InvalidConfigError` when the validator of
    `config/validate.py` rejects it. Reading and decoding the TOML file
    (`load_config`) is outside the model; a loaded document is a table. */
module ConfigParser {
  import opened Wrappers
  import Dict
  import opened Toml
  import ConfigValidate

  type Options = ConfigValidate.Options

  /** `LuminolConfigGlobal`: the raw section and the three settings read
      from it with their defaults. */
  datatype GlobalConfig = GlobalConfig(
    settings: Options,
    wallpaperCommand: Value,
    reloadCommands: Value,
    themeType: Value)

  /** `d.get(key, default)`. */
  function GetOr(d: Options, key: string, default: Value): (v: Value)
    ensures Dict.HasKey(d, key) ==> Dict.Get(d, key) == Some(v)
    ensures !Dict.HasKey(d, key) ==> v == default
  {
    match Dict.Get(d, key)
    case None => default
    case Some(v) => v
  }

  /** `LuminolConfigGlobal(config)`: a missing `[global]` is an empty
      one; a `global` key that is not a table has no `.get` and raises. */
  function LoadGlobal(config: Options): (r: Result<GlobalConfig>)
    ensures r.Err? <==> Dict.HasKey(config, "global") && !Dict.Get(config, "global").value.Table?
    ensures r.Err? ==> r.fault.AttributeError?
    ensures r.Ok? ==> r.value.settings == (if Dict.HasKey(config, "global") then Dict.Get(config, "global").value.entries else [])
    ensures r.Ok? && !Dict.HasKey(r.value.settings, "theme-type") ==> r.value.themeType == Str("auto")
    ensures r.Ok? && !Dict.HasKey(r.value.settings, "wallpaper-command") ==> r.value.wallpaperCommand == Str("")
    ensures r.Ok? && !Dict.HasKey(r.value.settings, "reload-commands") ==> r.value.reloadCommands == List([])
  {
    var section := GetOr(config, "global", Table([]));
    if !section.Table? then Err(AttributeError(ConfigValidate.NoAttribute(section, "get")))
    else
      var g := section.entries;
      Ok(GlobalConfig(g, GetOr(g, "wallpaper-command", Str("")), GetOr(g, "reload-commands", List([])),
                      GetOr(g, "theme-type", Str("auto"))))
  }

  const GlobalInvalid: string := "Invalid global configuration. Please review the errors above."

  const ApplicationInvalid: string := "Invalid application configuration. Please review the errors above."

  /** `LuminolConfigGlobal.validate()`. */
  function ValidateGlobal(g: GlobalConfig): (r: Result<()>)
    ensures r.Ok? <==> ConfigValidate.WellTyped(g.settings, ConfigValidate.GlobalSchema) && ConfigValidate.ThemeOk(g.settings)
    ensures r.Err? ==> r.fault == InvalidConfigError(GlobalInvalid)
  {
    if ConfigValidate.ValidateGlobalConfig(g.settings) then Ok(()) else Err(InvalidConfigError(GlobalInvalid))
  }

  /** `LuminolConfigApplication`: the enabled sections in document order
      and their names (`app_list`). */
  datatype ApplicationConfig = ApplicationConfig(apps: seq<(string, Options)>, appList: seq<string>)

  /** The section takes part: it is not `global` and its `enabled` is
      truthy (a missing one counts as `False`). */
  predicate Selected(entry: (string, Value))
  {
    entry.0 != "global" && entry.1.Table? && Truthy(GetOr(entry.1.entries, "enabled", Bool(false)))
  }

  /** A section other than `global` that is not a table has no `.get`. */
  predicate Malformed(entry: (string, Value))
  {
    entry.0 != "global" && !entry.1.Table?
  }

  /** The section as the comprehension keeps it. */
  function Section(entry: (string, Value)): (string, Options)
    requires entry.1.Table?
  {
    (entry.0, entry.1.entries)
  }

  /** Some selected entry of the document gives this section. */
  predicate FromDocument(config: Options, app: (string, Options))
  {
    exists i :: 0 <= i < |config| && Selected(config[i]) && Section(config[i]) == app
  }

  lemma FromDocumentTail(config: Options, app: (string, Options))
    requires |config| > 0 && FromDocument(config[1..], app)
    ensures FromDocument(config, app)
  {
    var i :| 0 <= i < |config[1..]| && Selected(config[1..][i]) && Section(config[1..][i]) == app;
    assert config[i + 1] == config[1..][i];
  }

  /** The dict comprehension over the document's top-level entries. */
  function EnabledSections(config: Options): (r: Result<seq<(string, Options)>>)
    ensures r.Err? <==> exists i :: 0 <= i < |config| && Malformed(config[i])
    ensures r.Err? ==> r.fault.AttributeError?
    ensures r.Ok? ==> |r.value| <= |config|
    ensures r.Ok? ==> forall app :: app in r.value ==> FromDocument(config, app)
    ensures r.Ok? ==> forall i :: 0 <= i < |config| && Selected(config[i]) ==> Section(config[i]) in r.value
  {
    if |config| == 0 then Ok([])
    else
      var (key, value) := config[0];
      assert forall i :: 1 <= i < |config| ==> config[i] == config[1..][i - 1];
      if Malformed(config[0]) then Err(AttributeError(ConfigValidate.NoAttribute(value, "get")))
      else
        match EnabledSections(config[1..])
        case Err(f) => Err(f)
        case Ok(rest) =>
          assert forall app :: app in rest ==> FromDocument(config, app) by {
            forall app | app in rest
              ensures FromDocument(config, app)
            {
              FromDocumentTail(config, app);
            }
          }
          if Selected(config[0]) then Ok([Section(config[0])] + rest) else Ok(rest)
  }

  /** `LuminolConfigApplication(config)`. */
  function LoadApplications(config: Options): (r: Result<ApplicationConfig>)
    ensures r.Err? <==> exists i :: 0 <= i < |config| && Malformed(config[i])
    ensures r.Ok? ==> |r.value.appList| == |r.value.apps|
    ensures r.Ok? ==> forall j :: 0 <= j < |r.value.apps| ==> r.value.appList[j] == r.value.apps[j].0
    ensures r.Ok? ==> forall app :: app in r.value.apps ==> FromDocument(config, app)
    ensures r.Ok? ==> forall i :: 0 <= i < |config| && Selected(config[i]) ==> Section(config[i]) in r.value.apps
  {
    match EnabledSections(config)
    case Err(f) => Err(f)
    case Ok(apps) => Ok(ApplicationConfig(apps, Names(apps)))
  }

  /** `list(app_config)`: the section names in order. */
  function Names(apps: seq<(string, Options)>): (names: seq<string>)
    ensures |names| == |apps| && forall j :: 0 <= j < |apps| ==> names[j] == apps[j].0
  {
    if |apps| == 0 then [] else [apps[0].0] + Names(apps[1..])
  }

  /** `LuminolConfigApplication.validate()`: it accepts exactly what
      `validate_application_config` accepts; an exception from a check
      passes through, and a rejection raises `InvalidConfigError`. */
  function ValidateApplications(host: ConfigValidate.Host, a: ApplicationConfig): (r: Result<()>)
    ensures r.Ok? <==> ConfigValidate.ValidateApplicationConfig(host, a.apps) == Ok(true)
    ensures r == Err(InvalidConfigError(ApplicationInvalid)) <==> ConfigValidate.ValidateApplicationConfig(host, a.apps) == Ok(false)
    ensures ConfigValidate.ValidateApplicationConfig(host, a.apps).Err? ==> r == ConfigValidate.ValidateApplicationConfig(host, a.apps).PropagateFailure()
  {
    match ConfigValidate.ValidateApplicationConfig(host, a.apps)
    case Err(f) => Err(f)
    case Ok(valid) => if valid then Ok(()) else Err(InvalidConfigError(ApplicationInvalid))
  }

  /** A property holds of every loaded section exactly when it holds of
      every selected entry of the document. */
  lemma AllSections(config: Options, apps: seq<(string, Options)>, p: Options -> bool)
    requires forall app :: app in apps ==> FromDocument(config, app)
    requires forall i :: 0 <= i < |config| && Selected(config[i]) ==> Section(config[i]) in apps
    ensures (forall j :: 0 <= j < |apps| ==> p(apps[j].1))
      <==> (forall i :: 0 <= i < |config| && Selected(config[i]) ==> p(config[i].1.entries))
  {
    if forall j :: 0 <= j < |apps| ==> p(apps[j].1) {
      forall i | 0 <= i < |config| && Selected(config[i])
        ensures p(config[i].1.entries)
      {
        var j :| 0 <= j < |apps| && apps[j] == Section(config[i]);
      }
    }
    if forall i :: 0 <= i < |config| && Selected(config[i]) ==> p(config[i].1.entries) {
      forall j | 0 <= j < |apps|
        ensures p(apps[j].1)
      {
        assert apps[j] in apps;
        var i :| 0 <= i < |config| && Selected(config[i]) && Section(config[i]) == apps[j];
      }
    }
  }

  /** Loading and validating the application sections of a document
      succeeds exactly when every enabled section is valid and none of
      its checks raises. */
  lemma ApplicationsAccepted(host: ConfigValidate.Host, config: Options)
    ensures LoadApplications(config).Ok? ==>
      (ValidateApplications(host, LoadApplications(config).value).Ok? <==>
        forall i :: 0 <= i < |config| && Selected(config[i]) ==>
          !ConfigValidate.Crashes(host, config[i].1.entries) && ConfigValidate.ApplicationValid(host, config[i].1.entries))
  {
    if LoadApplications(config).Ok? {
      var apps := LoadApplications(config).value.apps;
      var p := (o: Options) => !ConfigValidate.Crashes(host, o) && ConfigValidate.ApplicationValid(host, o);
      AllSections(config, apps, p);
      ConfigValidate.ApplicationConfigOk(host, apps);
      assert (forall j :: 0 <= j < |apps| ==> p(apps[j].1))
        <==> ConfigValidate.ValidateApplicationConfig(host, apps) == Ok(true);
    }
  }

  /** Loading and validating the `[global]` section succeeds exactly when
      every known option there has its type and a given theme type is
      auto, light or dark. */
  lemma GlobalAccepted(config: Options)
    ensures LoadGlobal(config).Ok? ==>
      (ValidateGlobal(LoadGlobal(config).value).Ok? <==>
        var g := if Dict.HasKey(config, "global") then Dict.Get(config, "global").value.entries else [];
        ConfigValidate.WellTyped(g, ConfigValidate.GlobalSchema) && ConfigValidate.ThemeOk(g))
  {
  }
}
