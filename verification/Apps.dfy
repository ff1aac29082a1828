/**
 The application registry: configurations by label, labels by name, and the flags that say how far
 population has come. The model registry underneath outlives it.
 */
module Apps {
  import opened Wrappers
  import opened Sequences
  import opened Registry
  import opened Discovery

  /** Unicode character classes and case mapping, which the standard library supplies. */
  datatype Unicode = Unicode(isAlphabetic: char -> bool, isAlphanumeric: char -> bool, lower: string -> string)

  datatype AppConfig = AppConfig(
    name: string, appLabel: string, verboseName: Option<string>, path: Option<string>,
    defaultAutoField: Option<string>, modelsReady: bool)
  {
    predicate ValidLabel(u: Unicode) {
      && appLabel != []
      && (u.isAlphabetic(appLabel[0]) || appLabel[0] == '_')
      && forall i :: 0 <= i < |appLabel| ==> u.isAlphanumeric(appLabel[i]) || appLabel[i] == '_'
    }
  }

  datatype AppError = InvalidLabel | DuplicateLabel(appLabel: string) | DuplicateName(name: string) | NotFound | Frozen

  /** A letter or underscore, and then letters, digits and underscores; the first is no digit. */
  ghost predicate IsLabel(u: Unicode, text: string) {
    exists c, rest ::
      && text == [c] + rest
      && ((u.isAlphabetic(c) && u.isAlphanumeric(c)) || c == '_')
      && forall d :: d in rest ==> u.isAlphanumeric(d) || d == '_'
  }

  lemma LabelsExactly(u: Unicode, config: AppConfig)
    ensures config.ValidLabel(u) <==> IsLabel(u, config.appLabel)
  {
    var text := config.appLabel;
    if config.ValidLabel(u) {
      assert text == [text[0]] + text[1..];
      forall d | d in text[1..] ensures u.isAlphanumeric(d) || d == '_' {
        var i :| 0 <= i < |text| - 1 && text[1..][i] == d;
        assert text[i + 1] == d;
      }
    }
    if IsLabel(u, text) {
      var c, rest :| text == [c] + rest && ((u.isAlphabetic(c) && u.isAlphanumeric(c)) || c == '_')
                     && forall d :: d in rest ==> u.isAlphanumeric(d) || d == '_';
      forall i | 0 <= i < |text| ensures u.isAlphanumeric(text[i]) || text[i] == '_' {
        if i > 0 { assert text[i] == rest[i - 1] && rest[i - 1] in rest; }
      }
    }
  }

  /** The configuration that population gives an installed app nobody registered. */
  function DefaultConfig(name: string): AppConfig {
    AppConfig(name, name, None, None, None, false)
  }

  function WithInstalled(configs: map<string, AppConfig>, installed: seq<string>): map<string, AppConfig> {
    configs + map n | n in Elems(installed) && n !in configs :: DefaultConfig(n)
  }

  function NamesWithInstalled(names: map<string, string>, configs: map<string, AppConfig>, installed: seq<string>)
    : map<string, string>
  {
    names + map n | n in Elems(installed) && n !in configs :: n
  }

  /** Configurations are kept under their own labels, and every known name leads to one. */
  ghost predicate MapsAgree(configs: map<string, AppConfig>, names: map<string, string>) {
    && (forall l :: l in configs ==> configs[l].appLabel == l)
    && (forall n :: n in names ==> names[n] in configs)
  }

  lemma NothingInstalled(configs: map<string, AppConfig>, names: map<string, string>)
    ensures forall installed: seq<string> ::
      && WithInstalled(configs, installed[..0]) == configs
      && NamesWithInstalled(names, configs, installed[..0]) == names
  {
  }

  lemma InstallStep(configs: map<string, AppConfig>, done: seq<string>, name: string)
    ensures var c := WithInstalled(configs, done);
            && (name in c <==> name in configs || name in done)
            && WithInstalled(configs, done + [name]) == (if name in c then c else c[name := DefaultConfig(name)])
  {
    ElemsStep(done, name);
  }

  lemma NameStep(configs: map<string, AppConfig>, names: map<string, string>, done: seq<string>, name: string)
    ensures var n := NamesWithInstalled(names, configs, done);
            NamesWithInstalled(names, configs, done + [name]) ==
            if name in configs || name in done then n else n[name := name]
  {
    ElemsStep(done, name);
  }

  lemma AddedByDefault(configs: map<string, AppConfig>, installed: seq<string>)
    ensures var after := WithInstalled(configs, installed);
            forall n :: n in installed && n !in configs ==> n in after && after[n] == AppConfig(n, n, None, None, None, false)
  {
  }

  lemma StillValid(configs: map<string, AppConfig>, names: map<string, string>, installed: seq<string>)
    requires MapsAgree(configs, names)
    ensures MapsAgree(WithInstalled(configs, installed), NamesWithInstalled(names, configs, installed))
  {
  }

  /** The registry as one value; `frozen` says whether the reverse relations below it are finalized. */
  datatype State = State(
    configs: map<string, AppConfig>, names: map<string, string>,
    ready: bool, appsReady: bool, modelsReady: bool, frozen: bool)
  {
    ghost predicate Valid() {
      && MapsAgree(configs, names)
      && (ready ==> appsReady && modelsReady)
      && (modelsReady ==> frozen)
    }

    predicate Accepts(u: Unicode, config: AppConfig) {
      config.ValidLabel(u) && config.appLabel !in configs && config.name !in names
    }

    function Register(u: Unicode, config: AppConfig): State {
      if Accepts(u, config)
      then this.(configs := configs[config.appLabel := config], names := names[config.name := config.appLabel])
      else this
    }

    /** `related` says whether there are reverse relations to register. */
    ghost predicate CanPopulate(installed: seq<string>, related: bool) {
      Distinct(installed) && (modelsReady || !frozen || !related)
    }

    /** A population that fails late has configured the installed apps all the same. */
    ghost function Populate(installed: seq<string>, related: bool): State {
      if !Distinct(installed) then this.(appsReady := true)
      else
        var t := this.(appsReady := true, configs := WithInstalled(configs, installed),
                       names := NamesWithInstalled(names, configs, installed));
        if CanPopulate(installed, related) then t.(ready := true, modelsReady := true, frozen := true) else t
    }

    function ClearCache(): State {
      State(map[], map[], false, false, false, frozen)
    }

    /** Whether a name counts as installed. */
    predicate Installed(installed: seq<string>, name: string) {
      name in installed || name in names || name in configs
    }
  }

  class Apps {
    const unicode: Unicode
    const installedApps: seq<string>
    const registry: Registry
    var appConfigs: map<string, AppConfig>
    var appNames: map<string, string>
    var ready: bool
    var appsReady: bool
    var modelsReady: bool

    ghost predicate Valid()
      reads this, registry
    {
      registry.Valid() && Now().Valid()
    }

    function Now(): State
      reads this, registry
    {
      State(appConfigs, appNames, ready, appsReady, modelsReady, registry.reverseRelations.Some?)
    }

    constructor (unicode: Unicode, installedApps: seq<string>, registry: Registry)
      requires registry.Valid()
      ensures this.unicode == unicode && this.installedApps == installedApps && this.registry == registry
      ensures Valid() && appConfigs == map[] && appNames == map[] && !ready && !appsReady && !modelsReady
    {
      this.unicode, this.installedApps, this.registry := unicode, installedApps, registry;
      appConfigs, appNames, ready, appsReady, modelsReady := map[], map[], false, false, false;
    }

    method Register(config: AppConfig) returns (r: Result<(), AppError>)
      requires Valid()
      modifies this`appConfigs, this`appNames
      ensures Valid()
      ensures Now() == old(Now()).Register(unicode, config)
      ensures r.Ok? <==> old(Now()).Accepts(unicode, config)
      ensures r == Err(InvalidLabel) <==> !IsLabel(unicode, config.appLabel)
      ensures r == Err(DuplicateLabel(config.appLabel)) <==> IsLabel(unicode, config.appLabel) && config.appLabel in old(appConfigs)
      ensures r == Err(DuplicateName(config.name)) <==>
        IsLabel(unicode, config.appLabel) && config.appLabel !in old(appConfigs) && config.name in old(appNames)
    {
      LabelsExactly(unicode, config);
      if !config.ValidLabel(unicode) {
        return Err(InvalidLabel);
      }
      if config.appLabel in appConfigs {
        return Err(DuplicateLabel(config.appLabel));
      }
      if config.name in appNames {
        return Err(DuplicateName(config.name));
      }
      appNames := appNames[config.name := config.appLabel];
      appConfigs := appConfigs[config.appLabel := config];
      return Ok(());
    }

    method GetAppConfig(appLabel: string) returns (r: Result<AppConfig, AppError>)
      requires Valid()
      ensures r.Ok? <==> appLabel in appConfigs
      ensures r.Ok? ==> r.value.appLabel == appLabel && r.value == appConfigs[appLabel]
    {
      return if appLabel in appConfigs then Ok(appConfigs[appLabel]) else Err(NotFound);
    }

    method IsInstalled(name: string) returns (b: bool)
      ensures b <==> Now().Installed(installedApps, name)
    {
      b := name in installedApps || name in appNames || name in appConfigs;
    }

    /** Looking a model up gives the reverses of the relationships that target it, in order. */
    ghost predicate LookupsAreImages()
      reads registry
    {
      forall t :: registry.ReverseRelationsOn(t) ==
                  Reverses(unicode.lower, Under(BY_TARGET_MODEL, ModelRelationships(registry.models, registry.relationships), t))
    }

    /** Looking a model up gives exactly the other sides of the declared relationships that target it. */
    ghost predicate LookupsAreOtherSides()
      reads registry
    {
      forall t, e :: e in registry.ReverseRelationsOn(t) <==>
        exists rel :: rel in registry.relationships && IsDeclared(registry.models, rel) && IsOtherSide(unicode.lower, rel, t, e)
    }

    lemma ImagesAreOtherSides()
      requires LookupsAreImages()
      ensures LookupsAreOtherSides()
    {
      hide Under, Reverses, ModelRelationships, IsDeclared, IsOtherSide;
      var models, rels := registry.models, registry.relationships;
      forall t, e ensures e in registry.ReverseRelationsOn(t) <==>
        exists rel :: rel in rels && IsDeclared(models, rel) && IsOtherSide(unicode.lower, rel, t, e)
      {
        UnderOfReverses(unicode.lower, ModelRelationships(models, rels), t);
        FoundExactly(unicode.lower, models, rels, t, e);
      }
    }

    lemma BuilderGivesImages()
      requires registry.reverseRelations.Some?
      ensures registry.builder == Reverses(unicode.lower, ModelRelationships(registry.models, registry.relationships)) ==>
        LookupsAreImages()
    {
      hide Under, Reverses, ModelRelationships;
      if registry.builder == Reverses(unicode.lower, ModelRelationships(registry.models, registry.relationships)) {
        forall t ensures registry.ReverseRelationsOn(t) ==
                         Reverses(unicode.lower, Under(BY_TARGET_MODEL, ModelRelationships(registry.models, registry.relationships), t))
        {
          UnderOfReverses(unicode.lower, ModelRelationships(registry.models, registry.relationships), t);
        }
      }
    }

    /**
     Succeeds exactly when no app is installed twice and the reverse relations can still be
     registered, need no registering, or have been built by this registry before.
     */
    method Populate() returns (r: Result<(), AppError>)
      requires Valid()
      modifies this, registry
      ensures Valid()
      ensures var related := ModelRelationships(registry.models, registry.relationships) != [];
              Now() == old(Now()).Populate(installedApps, related) && (r.Ok? <==> old(Now()).CanPopulate(installedApps, related))
      ensures r.Ok? <==>
        && Distinct(installedApps)
        && (old(modelsReady) || old(registry.reverseRelations).None?
            || forall rel :: rel in registry.relationships ==> !IsDeclared(registry.models, rel))
      ensures r.Ok? ==> ready && appsReady && modelsReady && registry.reverseRelations.Some?
      ensures r.Err? ==> appsReady && ready == old(ready) && modelsReady == old(modelsReady)
      ensures old(registry.reverseRelations).Some? ==>
        && registry.reverseRelations == old(registry.reverseRelations)
        && registry.builder == old(registry.builder)
      ensures r.Ok? && old(registry.reverseRelations).None? ==>
        registry.builder == old(registry.builder)
          + Reverses(unicode.lower, ModelRelationships(registry.models, registry.relationships))
      ensures r.Ok? && old(registry.reverseRelations).None? && old(registry.builder) == [] ==>
        LookupsAreImages() && LookupsAreOtherSides()
    {
      NoneCollected(registry.models, registry.relationships);
      appsReady := true;
      var duplicate := FirstDuplicate(installedApps);
      if duplicate.Some? {
        return Err(DuplicateLabel(duplicate.value));
      }
      AddInstalled();
      if !modelsReady {
        var built := BuildReverseRelations(registry, unicode.lower);
        if built.Err? {
          return Err(Frozen);
        }
        registry.FinalizeReverseRelations();
        BuilderGivesImages();
        if old(registry.reverseRelations).None? && old(registry.builder) == [] { ImagesAreOtherSides(); }
      }
      modelsReady := true;
      ready := true;
      return Ok(());
    }

    /** Configures every installed app that has no configuration yet. */
    method AddInstalled()
      requires MapsAgree(appConfigs, appNames)
      modifies this`appConfigs, this`appNames
      ensures MapsAgree(appConfigs, appNames)
      ensures appConfigs == WithInstalled(old(appConfigs), installedApps)
      ensures forall n :: n in installedApps && n !in old(appConfigs) ==>
        n in appConfigs && appConfigs[n] == AppConfig(n, n, None, None, None, false)
      ensures appNames == NamesWithInstalled(old(appNames), old(appConfigs), installedApps)
    {
      hide *;
      NothingInstalled(appConfigs, appNames);
      for i := 0 to |installedApps|
        invariant appConfigs == WithInstalled(old(appConfigs), installedApps[..i])
        invariant appNames == NamesWithInstalled(old(appNames), old(appConfigs), installedApps[..i])
      {
        var name := installedApps[i];
        assert installedApps[..i + 1] == installedApps[..i] + [name];
        InstallStep(old(appConfigs), installedApps[..i], name);
        NameStep(old(appConfigs), old(appNames), installedApps[..i], name);
        if name !in appConfigs {
          appConfigs := appConfigs[name := DefaultConfig(name)];
          appNames := appNames[name := name];
        }
      }
      assert installedApps[..|installedApps|] == installedApps;
      StillValid(old(appConfigs), old(appNames), installedApps);
      AddedByDefault(old(appConfigs), installedApps);
    }

    method ClearCache()
      requires Valid()
      modifies this`appConfigs, this`appNames, this`ready, this`appsReady, this`modelsReady
      ensures Valid() && Now() == old(Now()).ClearCache()
      ensures appConfigs == map[] && appNames == map[] && !ready && !appsReady && !modelsReady
    {
      appConfigs, appNames := map[], map[];
      ready, appsReady, modelsReady := false, false, false;
    }
  }

  /** The first element that occurs twice, by its second occurrence. */
  method FirstDuplicate(s: seq<string>) returns (r: Option<string>)
    ensures r.None? <==> Distinct(s)
    ensures r.Some? ==> exists i, j :: 0 <= i < j < |s| && s[i] == s[j] == r.value
  {
    var seen: set<string> := {};
    for i := 0 to |s|
      invariant seen == Elems(s[..i]) && Distinct(s[..i])
    {
      if s[i] in seen {
        return Some(s[i]);
      }
      assert s[..i + 1] == s[..i] + [s[i]];
      DistinctStep(s[..i], s[i]);
      seen := seen + {s[i]};
    }
    assert s[..|s|] == s;
    return None;
  }

  /** Populating configures every installed app, keeps what was configured, and a second time adds nothing. */
  lemma PopulationIsIdempotent(configs: map<string, AppConfig>, names: map<string, string>, installed: seq<string>)
    ensures var after, named := WithInstalled(configs, installed), NamesWithInstalled(names, configs, installed);
            && (forall n :: n in installed ==> n in after)
            && (forall l :: l in configs ==> l in after && after[l] == configs[l])
            && WithInstalled(after, installed) == after
            && NamesWithInstalled(named, after, installed) == named
  {
  }

  /** After a registered app's population its name still leads to it exactly when the name is not installed, or is itself a label. */
  lemma NameKeptExactly(configs: map<string, AppConfig>, names: map<string, string>, installed: seq<string>, name: string)
    requires MapsAgree(configs, names) && name in names
    ensures name in NamesWithInstalled(names, configs, installed)
    ensures NamesWithInstalled(names, configs, installed)[name] == names[name] <==> name !in installed || name in configs
  {
  }

  /** An app registered under a label other than its name, and installed by its name, ends up with two configurations. */
  lemma RegisteredNameLeadsAway(u: Unicode, config: AppConfig, related: bool)
    requires config.ValidLabel(u) && config.name != config.appLabel
    ensures var s := NEW.Register(u, config).Populate([config.name], related);
            && s.configs == map[config.appLabel := config, config.name := DefaultConfig(config.name)]
            && config.name in s.names && s.configs[s.names[config.name]] == DefaultConfig(config.name) != config
  {
    assert Elems([config.name]) == {config.name};
  }

  /** Population changes no answer about what is installed; before it an installed name may lead nowhere, after it none does. */
  lemma InstalledLeadsSomewhere(s: State, installed: seq<string>, related: bool, name: string)
    requires s.Valid() && Distinct(installed)
    ensures var t := s.Populate(installed, related);
            && (t.Installed(installed, name) <==> s.Installed(installed, name))
            && (t.Installed(installed, name) <==> name in t.configs || (name in t.names && t.names[name] in t.configs))
  {
  }

  // ----- Whole life cycles -----

  datatype Operation = Register(config: AppConfig) | Populate | ClearCache | Finalize

  const NEW := State(map[], map[], false, false, false, false)

  ghost function Apply(u: Unicode, installed: seq<string>, related: bool, s: State, op: Operation): State {
    match op
    case Register(config) => s.Register(u, config)
    case Populate => s.Populate(installed, related)
    case ClearCache => s.ClearCache()
    case Finalize => s.(frozen := true)
  }

  ghost function Run(u: Unicode, installed: seq<string>, related: bool, ops: seq<Operation>): State {
    if ops == [] then NEW
    else Apply(u, installed, related, Run(u, installed, related, ops[..|ops| - 1]), ops[|ops| - 1])
  }

  /** After every sequence of operations configurations are kept by label, names lead to labels, and the flags agree. */
  lemma {:induction false} RunIsValid(u: Unicode, installed: seq<string>, related: bool, ops: seq<Operation>)
    ensures Run(u, installed, related, ops).Valid()
  {
    hide *;
    RunUnfolds(u, installed, related, ops);
    if ops != [] {
      RunIsValid(u, installed, related, ops[..|ops| - 1]);
      StepKeepsValid(u, installed, related, Run(u, installed, related, ops[..|ops| - 1]), ops[|ops| - 1]);
    }
  }

  lemma RunUnfolds(u: Unicode, installed: seq<string>, related: bool, ops: seq<Operation>)
    ensures ops == [] ==> Run(u, installed, related, ops).Valid()
    ensures ops != [] ==>
      Run(u, installed, related, ops) == Apply(u, installed, related, Run(u, installed, related, ops[..|ops| - 1]), ops[|ops| - 1])
  {
    hide Apply;
  }

  lemma StepKeepsValid(u: Unicode, installed: seq<string>, related: bool, s: State, op: Operation)
    requires s.Valid()
    ensures Apply(u, installed, related, s, op).Valid()
  {
    hide MapsAgree, WithInstalled, NamesWithInstalled, AppConfig.ValidLabel, Distinct;
    StillValid(s.configs, s.names, installed);
    NothingAgrees();
    if op.Register? && s.Accepts(u, op.config) { OneMoreAgrees(s.configs, s.names, op.config); }
  }

  lemma NothingAgrees()
    ensures MapsAgree(map[], map[])
  {
  }

  lemma OneMoreAgrees(configs: map<string, AppConfig>, names: map<string, string>, config: AppConfig)
    requires MapsAgree(configs, names)
    ensures MapsAgree(configs[config.appLabel := config], names[config.name := config.appLabel])
  {
  }

  /**
   Clearing the caches after the reverse relations are finalized is fatal exactly when there are any: from
   then on no population succeeds, whatever is done; and without any, every population does.
   */
  lemma {:induction false} ClearedForGood(u: Unicode, installed: seq<string>, related: bool, ops: seq<Operation>, later: seq<Operation>)
    requires Distinct(installed) && Run(u, installed, related, ops).frozen
    ensures var s := Run(u, installed, related, ops + [ClearCache] + later);
            s.frozen && (s.CanPopulate(installed, related) <==> !related) && (related ==> !s.modelsReady && !s.ready)
    decreases |later|
  {
    var all := ops + [ClearCache] + later;
    hide WithInstalled, NamesWithInstalled, AppConfig.ValidLabel, Distinct;
    if later == [] {
      assert all[..|all| - 1] == ops;
    } else {
      assert all[..|all| - 1] == ops + [ClearCache] + later[..|later| - 1];
      ClearedForGood(u, installed, related, ops, later[..|later| - 1]);
    }
  }

  /** Populating, clearing and populating again succeeds exactly when there are no reverse relations. */
  lemma RepopulatesExactly(u: Unicode, installed: seq<string>, related: bool, ops: seq<Operation>)
    requires Run(u, installed, related, ops).CanPopulate(installed, related)
    ensures Run(u, installed, related, ops + [Populate] + [ClearCache]).CanPopulate(installed, related) <==> !related
  {
    var done := ops + [Populate];
    assert done[..|ops|] == ops;
    ClearedForGood(u, installed, related, done, []);
    assert done + [ClearCache] + [] == done + [ClearCache];
  }

  // ----- Building an application -----

  datatype RouteConfig = RouteConfig(path: string, handlerName: string, name: Option<string>, space: Option<string>)
  {
    function FullName(): Option<string> {
      match (space, name)
      case (Some(ns), Some(n)) => Some(ns + ":" + n)
      case (None, Some(n)) => Some(n)
      case _ => None
    }
  }

  datatype BuildError = App(error: AppError) | InvalidConfig | RouteError(name: string) | DatabaseError

  function Labels(apps: seq<AppConfig>): seq<string> {
    Map((a: AppConfig) => a.appLabel, apps)
  }

  function Names(apps: seq<AppConfig>): seq<string> {
    Map((a: AppConfig) => a.name, apps)
  }

  /** The full names of the named routes, in order. */
  function RouteNames(routes: seq<RouteConfig>): seq<string> {
    if routes == [] then []
    else RouteNames(routes[..|routes| - 1]) +
         match routes[|routes| - 1].FullName() case Some(n) => [n] case None => []
  }

  /** A database URL is represented by whether its scheme is recognized. */
  datatype ApplicationBuilder = ApplicationBuilder(
    apps: seq<AppConfig>, urlPatterns: seq<RouteConfig>, databaseSchemeOk: Option<bool>)
  {
    ghost predicate WellFormed(u: Unicode) {
      && (forall a :: a in apps ==> a.ValidLabel(u))
      && Distinct(Labels(apps))
      && Distinct(RouteNames(urlPatterns))
      && databaseSchemeOk != Some(false)
    }
  }

  method Validate(b: ApplicationBuilder, u: Unicode) returns (r: Result<(), BuildError>)
    ensures r.Ok? <==> b.WellFormed(u)
    ensures r.Ok? <==>
      && (forall a :: a in b.apps ==> IsLabel(u, a.appLabel))
      && (forall i, j :: 0 <= i < j < |b.apps| ==> b.apps[i].appLabel != b.apps[j].appLabel)
      && (forall full :: !Clash(b.urlPatterns, full))
      && b.databaseSchemeOk != Some(false)
  {
    forall a: AppConfig ensures a.ValidLabel(u) <==> IsLabel(u, a.appLabel) { LabelsExactly(u, a); }
    hide AppConfig.ValidLabel, IsLabel;
    ClashExactly(b.urlPatterns);
    for i := 0 to |b.apps|
      invariant forall j :: 0 <= j < i ==> b.apps[j].ValidLabel(u)
    {
      if !b.apps[i].ValidLabel(u) {
        return Err(App(InvalidLabel));
      }
    }
    var duplicate := FirstDuplicate(Labels(b.apps));
    if duplicate.Some? {
      return Err(InvalidConfig);
    }
    duplicate := DuplicateRoute(b.urlPatterns);
    if duplicate.Some? {
      return Err(RouteError(duplicate.value));
    }
    if b.databaseSchemeOk == Some(false) {
      return Err(DatabaseError);
    }
    return Ok(());
  }

  /** The route has a name, behind its namespace and a colon if it has one. */
  ghost predicate Carries(route: RouteConfig, full: string) {
    route.name.Some? && full == if route.space.Some? then route.space.value + ":" + route.name.value else route.name.value
  }

  /** Two routes carry the same name. */
  ghost predicate Clash(routes: seq<RouteConfig>, full: string) {
    exists i, j :: 0 <= i < j < |routes| && Carries(routes[i], full) && Carries(routes[j], full)
  }

  lemma {:induction false} NamedRoutes(routes: seq<RouteConfig>, full: string)
    ensures full in RouteNames(routes) <==> exists i :: 0 <= i < |routes| && Carries(routes[i], full)
  {
    if routes != [] {
      hide *;
      var n := |routes| - 1;
      NamedRoutes(routes[..n], full);
      RouteNamesStep(routes, full);
      CarriesExactly(routes[n], full);
      assert forall i :: 0 <= i < n ==> routes[..n][i] == routes[i];
    }
  }

  lemma RouteNamesStep(routes: seq<RouteConfig>, full: string)
    requires routes != []
    ensures var n := |routes| - 1;
            full in RouteNames(routes) <==> full in RouteNames(routes[..n]) || routes[n].FullName() == Some(full)
  {
    hide RouteConfig.FullName;
  }

  lemma CarriesExactly(route: RouteConfig, full: string)
    ensures Carries(route, full) <==> route.FullName() == Some(full)
  {
  }

  /** The full names repeat exactly when two routes carry the same one. */
  lemma {:induction false} ClashExactly(routes: seq<RouteConfig>)
    ensures Distinct(RouteNames(routes)) <==> forall full :: !Clash(routes, full)
  {
    if routes != [] {
      hide *;
      var n := |routes| - 1;
      var front, last := routes[..n], routes[n];
      ClashExactly(front);
      forall full ensures Clash(routes, full) <==> Clash(front, full) || (Carries(last, full) && full in RouteNames(front)) {
        ClashStep(routes, full);
      }
      NamesStep(routes);
      if last.FullName().Some? {
        var full := last.FullName().value;
        CarriesExactly(last, full);
        DistinctStep(RouteNames(front), full);
      }
      forall full ensures Carries(last, full) <==> last.FullName() == Some(full) { CarriesExactly(last, full); }
    } else {
      assert RouteNames(routes) == [];
    }
  }

  lemma ClashStep(routes: seq<RouteConfig>, full: string)
    requires routes != []
    ensures var n := |routes| - 1; var front, last := routes[..n], routes[n];
            Clash(routes, full) <==> Clash(front, full) || (Carries(last, full) && full in RouteNames(front))
  {
    var n := |routes| - 1;
    NamedRoutes(routes[..n], full);
    hide Carries, RouteNames;
    assert forall i :: 0 <= i < n ==> routes[..n][i] == routes[i];
  }

  lemma NamesStep(routes: seq<RouteConfig>)
    requires routes != []
    ensures var n := |routes| - 1; var names, last := RouteNames(routes[..n]), routes[n].FullName();
            RouteNames(routes) == if last.Some? then names + [last.value] else names
  {
    hide RouteConfig.FullName;
  }

  method DuplicateRoute(routes: seq<RouteConfig>) returns (r: Option<string>)
    ensures r.None? <==> Distinct(RouteNames(routes))
    ensures r.None? <==> forall full :: !Clash(routes, full)
  {
    ClashExactly(routes);
    var seen: set<string> := {};
    for i := 0 to |routes|
      invariant seen == Elems(RouteNames(routes[..i])) && Distinct(RouteNames(routes[..i]))
    {
      var fullName := routes[i].FullName();
      assert routes[..i + 1][..i] == routes[..i];
      if fullName.Some? {
        DistinctStep(RouteNames(routes[..i]), fullName.value);
        ElemsStep(RouteNames(routes[..i]), fullName.value);
        if fullName.value in seen {
          RepeatsStay(routes, i + 1);
          return fullName;
        }
        seen := seen + {fullName.value};
      }
    }
    assert routes[..|routes|] == routes;
    return None;
  }

  lemma {:induction false} RepeatsStay(routes: seq<RouteConfig>, i: nat)
    requires i <= |routes| && !Distinct(RouteNames(routes[..i]))
    ensures !Distinct(RouteNames(routes))
    decreases |routes|
  {
    if i == |routes| {
      assert routes[..i] == routes;
    } else {
      var front := routes[..|routes| - 1];
      assert front[..i] == routes[..i];
      RepeatsStay(front, i);
      var names, all := RouteNames(front), RouteNames(routes);
      var a, b :| 0 <= a < b < |names| && names[a] == names[b];
      assert all[a] == all[b];
    }
  }

  datatype Application = Application(apps: seq<AppConfig>, urlPatterns: seq<RouteConfig>)

  /** The two maps hold the apps, and nothing else, by label and by name. */
  ghost predicate Holds(configs: map<string, AppConfig>, names: map<string, string>, apps: seq<AppConfig>) {
    && configs.Keys == Elems(Labels(apps))
    && names.Keys == Elems(Names(apps))
    && forall a :: a in apps ==>
         a.appLabel in configs && configs[a.appLabel] == a && a.name in names && names[a.name] == a.appLabel
  }

  lemma HoldsStep(configs: map<string, AppConfig>, names: map<string, string>, apps: seq<AppConfig>, a: AppConfig)
    requires Holds(configs, names, apps)
    ensures Distinct(Labels(apps + [a])) <==> Distinct(Labels(apps)) && a.appLabel !in configs
    ensures Distinct(Names(apps + [a])) <==> Distinct(Names(apps)) && a.name !in names
    ensures a.appLabel !in configs && a.name !in names ==> Holds(configs[a.appLabel := a], names[a.name := a.appLabel], apps + [a])
  {
    hide Labels, Names, Distinct;
    LabelsStep(apps, a);
    DistinctStep(Labels(apps), a.appLabel);
    DistinctStep(Names(apps), a.name);
    ElemsStep(Labels(apps), a.appLabel);
    ElemsStep(Names(apps), a.name);
    if a.appLabel !in configs && a.name !in names {
      hide Elems;
      var configs', names' := configs[a.appLabel := a], names[a.name := a.appLabel];
      forall x | x in apps + [a]
        ensures x.appLabel in configs' && configs'[x.appLabel] == x && x.name in names' && names'[x.name] == x.appLabel
      {
        if x in apps { assert configs[x.appLabel] == x; }
      }
    }
  }

  lemma LabelsStep(apps: seq<AppConfig>, a: AppConfig)
    ensures Labels(apps + [a]) == Labels(apps) + [a.appLabel] && Names(apps + [a]) == Names(apps) + [a.name]
  {
  }

  lemma HoldsNone()
    ensures Holds(map[], map[], []) && Distinct(Names([]))
  {
  }

  /** Prefixes of a repetition-free list repeat nothing. */
  lemma {:induction false} DistinctPrefix(apps: seq<AppConfig>, i: nat)
    requires i <= |apps|
    ensures Distinct(Labels(apps)) ==> Distinct(Labels(apps[..i]))
    ensures Distinct(Names(apps)) ==> Distinct(Names(apps[..i]))
  {
  }

  method RegisterAll(target: Apps, apps: seq<AppConfig>) returns (r: Result<(), AppError>)
    requires target.Valid() && target.appConfigs == map[] && target.appNames == map[]
    requires (forall a :: a in apps ==> a.ValidLabel(target.unicode)) && Distinct(Labels(apps))
    modifies target`appConfigs, target`appNames
    ensures target.Valid()
    ensures r.Ok? <==> Distinct(Names(apps))
    ensures r.Ok? ==> Holds(target.appConfigs, target.appNames, apps)
  {
    hide Holds, Labels, Names, Distinct, MapsAgree, AppConfig.ValidLabel;
    HoldsNone();
    for i := 0 to |apps|
      invariant target.Valid()
      invariant Holds(target.appConfigs, target.appNames, apps[..i]) && Distinct(Names(apps[..i]))
    {
      assert apps[..i + 1] == apps[..i] + [apps[i]];
      HoldsStep(target.appConfigs, target.appNames, apps[..i], apps[i]);
      DistinctPrefix(apps, i + 1);
      var registered := target.Register(apps[i]);
      if registered.Err? {
        return Err(registered.error);
      }
    }
    assert apps[..|apps|] == apps;
    return Ok(());
  }

  /** Population adds a configuration for every name that is no label. */
  lemma HoldsInstalled(configs: map<string, AppConfig>, names: map<string, string>, apps: seq<AppConfig>)
    requires Holds(configs, names, apps)
    ensures var after := WithInstalled(configs, Names(apps));
            && after.Keys == Elems(Labels(apps)) + Elems(Names(apps))
            && forall a :: a in apps ==> a.appLabel in after && after[a.appLabel] == a
  {
  }

  /** An installed app's name leads to its label after population exactly when the name is some app's label. */
  lemma NamesInstalled(configs: map<string, AppConfig>, names: map<string, string>, apps: seq<AppConfig>)
    requires Holds(configs, names, apps) && MapsAgree(configs, names)
    ensures var named := NamesWithInstalled(names, configs, Names(apps));
            forall a :: a in apps ==>
              a.name in named && (named[a.name] == a.appLabel <==> a.name in Labels(apps))
  {
    hide NamesWithInstalled, MapsAgree;
    forall a | a in apps
      ensures var named := NamesWithInstalled(names, configs, Names(apps));
              a.name in named && (named[a.name] == a.appLabel <==> a.name in Labels(apps))
    {
      var i :| 0 <= i < |apps| && apps[i] == a;
      assert Names(apps)[i] == a.name;
      NameKeptExactly(configs, names, Names(apps), a.name);
    }
  }

  /**
   Builds into `target`, a registry new for the installed names. It succeeds exactly when the builder
   is well formed, the names are distinct, and the model registry can still take reverse relations or
   has none to take. Every app is then configured under its label; its name leads there exactly when the
   name is itself a label, and otherwise to a configuration of its own.
   */
  method Build(b: ApplicationBuilder, u: Unicode, registry: Registry)
    returns (r: Result<Application, BuildError>, target: Apps)
    requires registry.Valid()
    modifies registry
    ensures target.Valid() && target.registry == registry && fresh(target)
    ensures r.Ok? <==>
      && b.WellFormed(u) && Distinct(Names(b.apps))
      && (old(registry.reverseRelations).None? || ModelRelationships(registry.models, registry.relationships) == [])
    ensures r.Ok? ==>
      && r.value == Application(b.apps, b.urlPatterns)
      && target.ready
      && target.appConfigs.Keys == Elems(Labels(b.apps)) + Elems(Names(b.apps))
      && (forall a :: a in b.apps ==> a.appLabel in target.appConfigs && target.appConfigs[a.appLabel] == a)
      && (forall a :: a in b.apps ==>
            a.name in target.appNames && (target.appNames[a.name] == a.appLabel <==> a.name in Labels(b.apps)))
  {
    target := new Apps(u, Names(b.apps), registry);
    var valid := Validate(b, u);
    if valid.Err? {
      return Err(valid.error), target;
    }
    hide Labels, Names, RouteNames, Holds, WithInstalled, NamesWithInstalled, ModelRelationships, Distinct, Elems;
    var registered := RegisterAll(target, b.apps);
    if registered.Err? {
      return Err(App(registered.error)), target;
    }
    HoldsInstalled(target.appConfigs, target.appNames, b.apps);
    NamesInstalled(target.appConfigs, target.appNames, b.apps);
    var populated := target.Populate();
    if populated.Err? {
      return Err(App(populated.error)), target;
    }
    return Ok(Application(b.apps, b.urlPatterns)), target;
  }
}
