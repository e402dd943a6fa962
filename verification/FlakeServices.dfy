/** The local flake's inputs, split into services and the rest and merged back, and the two
    actions that rewrite them. */
module FlakeServices {
  import opened Wrappers
  import opened FlakeUrls

  const SP_MODULE_INPUT_PREFIX: string := "sp-module-"

  /** An input's name in the flake: a module's, with the prefix taken off, or any other. */
  datatype InputName = Module(service: string) | Plain(name: string)

  const NIXOS_CONFIG_INPUT: InputName := Plain("selfprivacy-nixos-config")

  /** A flake input: its URL, if it has one, and its other attributes. */
  datatype Input = Input(url: Option<Url>, others: map<string, string>)

  type Inputs = map<InputName, Input>
  type Services = map<string, Url>

  datatype FlakeError = MissingUrl | MissingConfig | LegacySpModules

  // ----- Names -----

  predicate IsModuleKey(key: string) { SP_MODULE_INPUT_PREFIX <= key }

  function ParseName(key: string): InputName {
    if IsModuleKey(key) then Module(key[|SP_MODULE_INPUT_PREFIX|..]) else Plain(key)
  }

  function RenderName(name: InputName): string {
    match name
    case Module(service) => SP_MODULE_INPUT_PREFIX + service
    case Plain(plain) => plain
  }

  /** Telling module inputs by their prefix loses nothing: every key is rendered back, and every
      name is parsed back unless it is a plain one that carries the prefix. */
  lemma NamesRoundTrip(key: string, name: InputName)
    ensures ParseName(key).Module? <==> "sp-module-" <= key
    ensures ParseName(key).Module? ==> key == "sp-module-" + ParseName(key).service
    ensures RenderName(ParseName(key)) == key
    ensures ParseName(RenderName(name)) == name <==> !(name.Plain? && IsModuleKey(name.name))
  {
    if name.Module? {
      assert RenderName(name)[..|SP_MODULE_INPUT_PREFIX|] == SP_MODULE_INPUT_PREFIX;
      assert RenderName(name)[|SP_MODULE_INPUT_PREFIX|..] == name.service;
    }
  }

  // ----- Splitting and merging -----

  /** Every module input has a URL, as reading the file demands. */
  predicate Readable(file: Inputs) {
    forall k :: k in file && k.Module? ==> file[k].url.Some?
  }

  function RestOf(file: Inputs): Inputs {
    map k | k in file && k.Plain? :: file[k]
  }

  function ServiceNames(file: Inputs): set<string> {
    set k | k in file && k.Module? :: k.service
  }

  function ServicesOf(file: Inputs): Services
    requires Readable(file)
  {
    map s | s in ServiceNames(file) :: file[Module(s)].url.value
  }

  function FromUrl(url: Url): Input { Input(Some(url), map[]) }

  function ModuleNames(services: Services): set<InputName> {
    set s | s in services :: Module(s)
  }

  function Merged(rest: Inputs, services: Services): Inputs {
    map k | k in rest.Keys + ModuleNames(services) ::
      if k.Module? && k.service in services then FromUrl(services[k.service]) else rest[k]
  }

  /** No input of the rest is named like a module. */
  predicate Unprefixed(rest: Inputs) { forall k :: k in rest ==> k.Plain? }

  lemma ServicesOfAt(file: Inputs, service: string)
    requires Readable(file)
    ensures service in ServicesOf(file) <==> Module(service) in file
    ensures service in ServicesOf(file) ==> ServicesOf(file)[service] == file[Module(service)].url.value
  {
    if Module(service) in file {
      assert Module(service).service in ServiceNames(file);
    }
  }

  lemma MergedAt(rest: Inputs, services: Services, k: InputName)
    ensures k in Merged(rest, services) <==> k in rest || (k.Module? && k.service in services)
    ensures k in Merged(rest, services) ==>
              Merged(rest, services)[k]
              == if k.Module? && k.service in services then FromUrl(services[k.service]) else rest[k]
  {
    if k.Module? && k.service in services {
      assert Module(k.service) in ModuleNames(services);
    }
  }

  lemma MergedExtended(rest: Inputs, services: Services, name: string, url: Url)
    ensures Merged(rest, services[name := url]) == Merged(rest, services)[Module(name) := FromUrl(url)]
  {
    var a, b := Merged(rest, services[name := url]), Merged(rest, services)[Module(name) := FromUrl(url)];
    forall k
      ensures k in a <==> k in b
      ensures k in a ==> a[k] == b[k]
    {
      MergedAt(rest, services, k);
      MergedAt(rest, services[name := url], k);
    }
  }

  /** Merging, then splitting, gives back both parts. */
  lemma SplitOfMerged(rest: Inputs, services: Services)
    requires Unprefixed(rest)
    ensures Readable(Merged(rest, services))
    ensures RestOf(Merged(rest, services)) == rest
    ensures ServicesOf(Merged(rest, services)) == services
  {
    RestOfMerged(rest, services);
    ServicesOfMerged(rest, services);
  }

  lemma RestOfMerged(rest: Inputs, services: Services)
    requires Unprefixed(rest)
    ensures Readable(Merged(rest, services))
    ensures RestOf(Merged(rest, services)) == rest
  {
    var file := Merged(rest, services);
    forall k | k in file && k.Module? ensures file[k].url.Some? {
      MergedAt(rest, services, k);
    }
    forall k
      ensures k in RestOf(file) <==> k in rest
      ensures k in rest ==> RestOf(file)[k] == rest[k]
    {
      MergedAt(rest, services, k);
    }
  }

  lemma ServicesOfMerged(rest: Inputs, services: Services)
    requires Unprefixed(rest) && Readable(Merged(rest, services))
    ensures ServicesOf(Merged(rest, services)) == services
  {
    forall s
      ensures s in ServicesOf(Merged(rest, services)) <==> s in services
      ensures s in services ==> ServicesOf(Merged(rest, services))[s] == services[s]
    {
      ServicesOfAt(Merged(rest, services), s);
      MergedAt(rest, services, Module(s));
    }
  }

  /** Splitting, then merging, gives the file back exactly when no module input has attributes
      besides its URL: those are lost on a rewrite. */
  lemma MergedOfSplit(file: Inputs)
    requires Readable(file)
    ensures Merged(RestOf(file), ServicesOf(file)) == file <==>
              forall k :: k in file && k.Module? ==> file[k].others == map[]
  {
    var again := Merged(RestOf(file), ServicesOf(file));
    forall k
      ensures k in again <==> k in file
      ensures k in file && k.Plain? ==> again[k] == file[k]
      ensures k in file && k.Module? ==> again[k] == file[k].(others := map[])
    {
      MergedAt(RestOf(file), ServicesOf(file), k);
      if k.Module? {
        ServicesOfAt(file, k.service);
      }
    }
  }

  /** Every input outside `left` has gone to its side of the split. */
  ghost predicate SplitSoFar(all: Inputs, left: set<InputName>, rest: Inputs, services: Services) {
    && (forall k :: k in left ==> k in all)
    && (forall k :: k in all && k.Module? && k !in left ==> all[k].url.Some?)
    && (forall k :: k in rest <==> k in all && k.Plain? && k !in left)
    && (forall k :: k in rest ==> rest[k] == all[k])
    && (forall s :: s in services <==> Module(s) in all && Module(s) !in left)
    && (forall s :: s in services ==> all[Module(s)].url == Some(services[s]))
  }

  lemma SplitStart(all: Inputs)
    ensures SplitSoFar(all, all.Keys, map[], map[])
  {
  }

  lemma SplitModule(all: Inputs, left: set<InputName>, rest: Inputs, services: Services, key: InputName)
    requires SplitSoFar(all, left, rest, services) && key in left && key in all && key.Module? && all[key].url.Some?
    ensures SplitSoFar(all, left - {key}, rest, services[key.service := all[key].url.value])
  {
  }

  lemma SplitPlain(all: Inputs, left: set<InputName>, rest: Inputs, services: Services, key: InputName)
    requires SplitSoFar(all, left, rest, services) && key in left && key in all && key.Plain?
    ensures SplitSoFar(all, left - {key}, rest[key := all[key]], services)
  {
  }

  lemma SplitDone(all: Inputs, rest: Inputs, services: Services)
    requires SplitSoFar(all, {}, rest, services)
    ensures Readable(all) && rest == RestOf(all) && services == ServicesOf(all)
  {
    forall s
      ensures s in services <==> s in ServicesOf(all)
      ensures s in services ==> services[s] == ServicesOf(all)[s]
    {
      ServicesOfAt(all, s);
    }
  }

  /** The loop over the file's inputs, which fails on a module without a URL. */
  method SplitInputs(all: Inputs) returns (r: Result<(Inputs, Services), FlakeError>)
    ensures r.Ok? <==> Readable(all)
    ensures r.Ok? ==> r.value == (RestOf(all), ServicesOf(all))
    ensures r.Err? ==> r.error == MissingUrl
  {
    var rest: Inputs, services: Services := map[], map[];
    var keys := all.Keys;
    SplitStart(all);
    while keys != {}
      invariant SplitSoFar(all, keys, rest, services)
      decreases keys
    {
      var key :| key in keys;
      var value := all[key];
      if key.Module? {
        if value.url.None? {
          return Err(MissingUrl);
        }
        SplitModule(all, keys, rest, services, key);
        services := services[key.service := value.url.value];
      } else {
        SplitPlain(all, keys, rest, services, key);
        rest := rest[key := value];
      }
      keys := keys - {key};
    }
    SplitDone(all, rest, services);
    return Ok((rest, services));
  }

  // ----- The manager -----

  class FlakeFile {
    var inputs: Inputs
    var legacyModulesDir: bool
  }

  class FlakeServiceManager {
    const file: FlakeFile
    const allowLegacySpModules: bool
    var originalInputs: Inputs
    var originalServices: Services
    var inputs: Inputs
    var services: Services

    constructor (file: FlakeFile, allowLegacySpModules: bool)
      ensures this.file == file && this.allowLegacySpModules == allowLegacySpModules
    {
      this.file := file;
      this.allowLegacySpModules := allowLegacySpModules;
    }

    /** Reads the file and splits its inputs. */
    method Enter() returns (r: Result<(), FlakeError>)
      modifies this
      ensures r.Ok? <==> Readable(file.inputs)
      ensures r.Ok? ==> inputs == RestOf(file.inputs) && services == ServicesOf(file.inputs)
      ensures r.Ok? ==> originalInputs == inputs && originalServices == services
      ensures r.Err? ==> r.error == MissingUrl
    {
      var split := SplitInputs(file.inputs);
      if split.Err? {
        return Err(split.error);
      }
      originalInputs, originalServices := split.value.0, split.value.1;
      inputs, services := originalInputs, originalServices;
      return Ok(());
    }

    /** Writes the merged inputs back if anything changed, unless the block raised. */
    method Exit(raised: bool) returns (r: Result<(), FlakeError>)
      modifies this`inputs, file`inputs
      ensures raised || (old(inputs) == originalInputs && services == originalServices) ==>
                r.Ok? && file.inputs == old(file.inputs)
      ensures !raised && !(old(inputs) == originalInputs && services == originalServices) ==>
                if file.legacyModulesDir && !allowLegacySpModules
                then r == Err(LegacySpModules) && file.inputs == old(file.inputs)
                else r.Ok? && file.inputs == Merged(old(inputs), services)
    {
      if raised || (inputs == originalInputs && services == originalServices) {
        return Ok(());
      }
      if !allowLegacySpModules && file.legacyModulesDir {
        return Err(LegacySpModules);
      }
      var names := services.Keys;
      while names != {}
        invariant names <= services.Keys
        invariant inputs == Merged(old(inputs), services - names)
        decreases names
      {
        var name :| name in names;
        MergeOne(old(inputs), services, names, name);
        inputs := inputs[Module(name) := FromUrl(services[name])];
        names := names - {name};
      }
      assert services - names == services;
      file.inputs := inputs;
      return Ok(());
    }

    lemma MergeOne(rest: Inputs, services: Services, names: set<string>, name: string)
      requires name in names && names <= services.Keys
      ensures Merged(rest, services - names)[Module(name) := FromUrl(services[name])]
              == Merged(rest, services - (names - {name}))
    {
      assert services - (names - {name}) == (services - names)[name := services[name]];
      MergedExtended(rest, services - names, name, services[name]);
    }
  }

  // ----- Switching the update URL -----

  /** What switching from one configuration to another makes of each service's URL. */
  function Switched(services: Services, before: Url, after: Url): (r: Services)
    ensures r.Keys == services.Keys
  {
    map s | s in services :: if IsSpModuleUrl(services[s], before) then GetSpModuleUrl(after, s) else services[s]
  }

  /** The loop over the services, which assigns into the dictionary it walks. */
  method SwitchServices(manager: FlakeServiceManager, before: Url, after: Url)
    modifies manager`services
    ensures manager.services == Switched(old(manager.services), before, after)
  {
    var names := manager.services.Keys;
    while names != {}
      invariant names <= old(manager.services).Keys == manager.services.Keys
      invariant forall s :: s in old(manager.services) ==>
                  manager.services[s]
                  == if s in names then old(manager.services)[s]
                     else Switched(old(manager.services), before, after)[s]
      decreases names
    {
      var name :| name in names;
      if IsSpModuleUrl(manager.services[name], before) {
        manager.services := manager.services[name := GetSpModuleUrl(after, name)];
      }
      names := names - {name};
    }
  }

  /** The file lets itself be switched: the configuration input is there, and has a URL to compare
      with unless there is no service to compare. */
  predicate Switchable(file: Inputs) {
    && Readable(file) && NIXOS_CONFIG_INPUT in file
    && (file[NIXOS_CONFIG_INPUT].url.Some? || ServicesOf(file) == map[])
  }

  /** The services once the configuration is `url`. */
  function SwitchedTo(file: Inputs, url: Url): Services
    requires Switchable(file)
  {
    if ServicesOf(file) == map[] then map[]
    else Switched(ServicesOf(file), file[NIXOS_CONFIG_INPUT].url.value, url)
  }

  predicate AlreadySwitched(file: Inputs, url: Url)
    requires Switchable(file)
  {
    SwitchedTo(file, url) == ServicesOf(file) && file[NIXOS_CONFIG_INPUT].url == Some(url)
  }

  /** The file once the configuration is `url`: it is rewritten only if something changes. */
  function SwitchedFile(file: Inputs, url: Url): Inputs
    requires Switchable(file)
  {
    if AlreadySwitched(file, url) then file
    else
      var config := file[NIXOS_CONFIG_INPUT].(url := Some(url));
      Merged(RestOf(file)[NIXOS_CONFIG_INPUT := config], SwitchedTo(file, url))
  }

  /** Gives the configuration input the new URL and switches the services. It fails exactly if the
      file cannot be read, or has no configuration to compare with, or would change while the
      legacy directory is there. */
  method SetSystemUpdateUrl(file: FlakeFile, url: Url) returns (r: Result<(), FlakeError>)
    modifies file`inputs
    ensures r == Err(MissingUrl) <==> !Readable(old(file.inputs))
    ensures r == Err(MissingConfig) <==> Readable(old(file.inputs)) && !Switchable(old(file.inputs))
    ensures r == Err(LegacySpModules) <==>
              Switchable(old(file.inputs)) && file.legacyModulesDir && !AlreadySwitched(old(file.inputs), url)
    ensures r.Err? ==> file.inputs == old(file.inputs)
    ensures r.Ok? ==>
      && Readable(file.inputs) && NIXOS_CONFIG_INPUT in file.inputs
      && file.inputs[NIXOS_CONFIG_INPUT] == old(file.inputs)[NIXOS_CONFIG_INPUT].(url := Some(url))
      && RestOf(file.inputs) == RestOf(old(file.inputs))[NIXOS_CONFIG_INPUT := file.inputs[NIXOS_CONFIG_INPUT]]
      && ServicesOf(file.inputs) == SwitchedTo(old(file.inputs), url)
      && file.inputs == SwitchedFile(old(file.inputs), url)
  {
    var manager := new FlakeServiceManager(file, false);
    var entered := manager.Enter();
    if entered.Err? {
      return entered;
    }
    var switched := SwitchConfig(manager, url);
    if !switched {
      return Err(MissingConfig);
    }
    SameUrlSameInput(RestOf(file.inputs), url);
    SplitOfMerged(manager.inputs, manager.services);
    MergedAt(manager.inputs, manager.services, NIXOS_CONFIG_INPUT);
    r := manager.Exit(false);
  }

  /** The block: the old URL is looked at only for the sake of a service. */
  method SwitchConfig(manager: FlakeServiceManager, url: Url) returns (ok: bool)
    requires Readable(manager.file.inputs)
    requires manager.inputs == RestOf(manager.file.inputs) && manager.services == ServicesOf(manager.file.inputs)
    modifies manager`inputs, manager`services
    ensures ok <==> Switchable(manager.file.inputs)
    ensures ok ==> manager.services == SwitchedTo(manager.file.inputs, url)
    ensures ok ==>
      && NIXOS_CONFIG_INPUT in old(manager.inputs)
      && manager.inputs
         == old(manager.inputs)[NIXOS_CONFIG_INPUT := old(manager.inputs)[NIXOS_CONFIG_INPUT].(url := Some(url))]
  {
    if manager.services != map[] {
      if NIXOS_CONFIG_INPUT !in manager.inputs || manager.inputs[NIXOS_CONFIG_INPUT].url.None? {
        return false;
      }
      SwitchServices(manager, manager.inputs[NIXOS_CONFIG_INPUT].url.value, url);
    }
    if NIXOS_CONFIG_INPUT !in manager.inputs {
      return false;
    }
    manager.inputs := manager.inputs[NIXOS_CONFIG_INPUT := manager.inputs[NIXOS_CONFIG_INPUT].(url := Some(url))];
    return true;
  }

  lemma NoServices(file: Inputs)
    requires Readable(file)
    ensures ServicesOf(file) == map[] <==> forall k :: k in file ==> !k.Module?
  {
    forall k | k in file && k.Module? ensures ServicesOf(file) != map[] {
      ServicesOfAt(file, k.service);
    }
    forall s ensures s in ServicesOf(file) <==> Module(s) in file {
      ServicesOfAt(file, s);
    }
  }

  /** What the switch asks of the inputs. */
  lemma SwitchableMeans(file: Inputs)
    ensures var config := Plain("selfprivacy-nixos-config");
            Switchable(file) <==>
              && (forall k :: k in file && k.Module? ==> file[k].url.Some?)
              && config in file && (file[config].url.Some? || forall k :: k in file ==> !k.Module?)
  {
    if Readable(file) {
      NoServices(file);
    }
  }

  /** The inputs of a switched file, one by one: each module keeps its name and, if it followed the
      old configuration, is the new one's module of that name. */
  lemma SwitchedFileAt(file: Inputs, url: Url, k: InputName)
    requires Switchable(file)
    ensures k in SwitchedFile(file, url) <==> k in file
    ensures k in file && k.Module? ==>
              SwitchedFile(file, url)[k].url ==
              if IsSpModuleUrl(file[k].url.value, file[NIXOS_CONFIG_INPUT].url.value)
              then Some(GetSpModuleUrl(url, k.service)) else file[k].url
    ensures k in file && k.Plain? ==>
              SwitchedFile(file, url)[k] == if k == NIXOS_CONFIG_INPUT then file[k].(url := Some(url)) else file[k]
  {
    SwitchedFileParts(file, url);
    var written := SwitchedFile(file, url);
    if k.Module? {
      ServicesOfAt(file, k.service);
      ServicesOfAt(written, k.service);
    } else {
      assert k in RestOf(written) <==> k in RestOf(file);
    }
  }

  lemma SameUrlSameInput(rest: Inputs, url: Url)
    requires NIXOS_CONFIG_INPUT in rest
    ensures rest[NIXOS_CONFIG_INPUT := rest[NIXOS_CONFIG_INPUT].(url := Some(url))] == rest
       <==> rest[NIXOS_CONFIG_INPUT].url == Some(url)
  {
    assert rest[NIXOS_CONFIG_INPUT := rest[NIXOS_CONFIG_INPUT].(url := Some(url))][NIXOS_CONFIG_INPUT].url == Some(url);
  }

  /** Each module that followed the old configuration follows the new one, exactly if the new URL
      carries no `dir`; every other service is left alone. */
  lemma SwitchMovesFollowers(services: Services, before: Url, after: Url, s: string)
    requires s in services
    ensures !IsSpModuleUrl(services[s], before) ==> Switched(services, before, after)[s] == services[s]
    ensures IsSpModuleUrl(services[s], before) ==>
              (IsSpModuleUrl(Switched(services, before, after)[s], after) <==> NoDir(after))
  {
    ModuleFollowsItsConfig(after, s);
  }

  /** Switching there and back is the identity exactly when every module that followed the first
      configuration was written the way it is left, which without a `dir` in the second URL is the
      canonical one, and of the other services only modules of the first follow the second. */
  lemma SwitchThereAndBack(services: Services, a: Url, b: Url)
    ensures Switched(Switched(services, a, b), b, a) == services <==>
              forall s :: s in services ==> ComesBack(services[s], s, a, b)
  {
    var back := Switched(Switched(services, a, b), b, a);
    forall s | s in services ensures back[s] == services[s] <==> ComesBack(services[s], s, a, b) {
      ModuleFollowsItsConfig(b, s);
    }
  }

  predicate ComesBack(url: Url, service: string, a: Url, b: Url) {
    if IsSpModuleUrl(url, a) then url == GetSpModuleUrl(if NoDir(b) then a else b, service)
    else IsSpModuleUrl(url, b) ==> url == GetSpModuleUrl(a, service)
  }

  /** The same for the file: it comes back exactly when its services do and no module input has
      attributes besides its URL, unless nothing changed on the way there. */
  lemma FileThereAndBack(file: Inputs, a: Url, b: Url)
    requires Switchable(file) && file[NIXOS_CONFIG_INPUT].url == Some(a)
    ensures Switchable(SwitchedFile(file, b))
    ensures SwitchedFile(SwitchedFile(file, b), a) == file <==>
              || AlreadySwitched(file, b)
              || (&& (forall s :: s in ServicesOf(file) ==> ComesBack(ServicesOf(file)[s], s, a, b))
                  && (forall k :: k in file && k.Module? ==> file[k].others == map[]))
  {
    var there := SwitchedFile(file, b);
    if !AlreadySwitched(file, b) {
      SwitchedFileParts(file, b);
      SwitchedFileParts(there, a);
      RestThereAndBack(RestOf(file), a, b);
      SwitchThereAndBack(ServicesOf(file), a, b);
      MergedOfSplit(file);
      var back := Switched(Switched(ServicesOf(file), a, b), b, a);
      SplitOfMerged(RestOf(file), back);
      assert SwitchedFile(there, a) == Merged(RestOf(file), back);
    }
  }

  lemma RestThereAndBack(rest: Inputs, a: Url, b: Url)
    requires NIXOS_CONFIG_INPUT in rest && rest[NIXOS_CONFIG_INPUT].url == Some(a)
    ensures var config := rest[NIXOS_CONFIG_INPUT];
            rest[NIXOS_CONFIG_INPUT := config.(url := Some(b))][NIXOS_CONFIG_INPUT := config] == rest
  {
  }

  /** Both parts of a file that was switched, and that it is what merging them gives. */
  lemma SwitchedFileParts(file: Inputs, url: Url)
    requires Switchable(file)
    ensures var written := SwitchedFile(file, url);
            && Switchable(written)
            && RestOf(written)
               == RestOf(file)[NIXOS_CONFIG_INPUT := file[NIXOS_CONFIG_INPUT].(url := Some(url))]
            && ServicesOf(written) == SwitchedTo(file, url)
  {
    if !AlreadySwitched(file, url) {
      var rest := RestOf(file)[NIXOS_CONFIG_INPUT := file[NIXOS_CONFIG_INPUT].(url := Some(url))];
      SplitOfMerged(rest, SwitchedTo(file, url));
      MergedAt(rest, SwitchedTo(file, url), NIXOS_CONFIG_INPUT);
    } else {
      SameUrlSameInput(RestOf(file), url);
    }
  }

  // ----- Back from the SSO branch -----

  /** Some service is a module of the configuration. */
  ghost predicate AnyFollows(services: Services, config: Url) {
    exists s :: s in services && IsSpModuleUrl(services[s], config)
  }

  /** Some service in the file is a module of the SSO branch. */
  ghost predicate FollowsSso(file: Inputs)
    requires Readable(file)
  {
    AnyFollows(ServicesOf(file), SSO_NIXOS_CONFIG_URL)
  }

  /** Looks through the file, and leaves it as it is. */
  method IsMigrationNeeded(file: FlakeFile) returns (r: Result<bool, FlakeError>)
    modifies file`inputs
    ensures file.inputs == old(file.inputs)
    ensures r.Ok? <==> Readable(file.inputs)
    ensures r.Ok? ==> (r.value <==> FollowsSso(file.inputs))
  {
    var manager := new FlakeServiceManager(file, false);
    var entered := manager.Enter();
    if entered.Err? {
      return Err(entered.error);
    }
    var needed := FindFollower(manager.services, SSO_NIXOS_CONFIG_URL);
    var left := manager.Exit(false);
    return Ok(needed);
  }

  method FindFollower(services: Services, config: Url) returns (found: bool)
    ensures found <==> AnyFollows(services, config)
  {
    var names := services.Keys;
    while names != {}
      invariant names <= services.Keys
      invariant forall s :: s in services && s !in names ==> !IsSpModuleUrl(services[s], config)
      decreases names
    {
      var s :| s in names;
      if IsSpModuleUrl(services[s], config) {
        return true;
      }
      names := names - {s};
    }
    return false;
  }

  /** Moves every module of the SSO branch to the default configuration. Afterwards no service in
      the file is one, so the migration is not needed. It fails exactly if the file cannot be
      read, or the migration is needed while the legacy directory is there; then it still is. */
  method Migrate(file: FlakeFile) returns (r: Result<(), FlakeError>)
    modifies file`inputs
    ensures r == Err(MissingUrl) <==> !Readable(old(file.inputs))
    ensures r == Err(LegacySpModules) <==>
              Readable(old(file.inputs)) && FollowsSso(old(file.inputs)) && file.legacyModulesDir
    ensures r.Err? ==> file.inputs == old(file.inputs) && !r.error.MissingConfig?
    ensures r.Ok? ==>
      && Readable(file.inputs) && !FollowsSso(file.inputs)
      && RestOf(file.inputs) == RestOf(old(file.inputs))
      && ServicesOf(file.inputs)
         == Switched(ServicesOf(old(file.inputs)), SSO_NIXOS_CONFIG_URL, DEFAULT_NIXOS_CONFIG_URL)
  {
    ghost var before := file.inputs;
    r := MoveFollowers(file, SSO_NIXOS_CONFIG_URL, DEFAULT_NIXOS_CONFIG_URL);
    if Readable(before) {
      MigrationSettles(ServicesOf(before));
    }
  }

  /** Switches the services of one configuration to another, and leaves the configuration as it is. */
  method MoveFollowers(file: FlakeFile, before: Url, after: Url) returns (r: Result<(), FlakeError>)
    modifies file`inputs
    ensures r == Err(MissingUrl) <==> !Readable(old(file.inputs))
    ensures r == Err(LegacySpModules) <==>
              && Readable(old(file.inputs)) && file.legacyModulesDir
              && Switched(ServicesOf(old(file.inputs)), before, after) != ServicesOf(old(file.inputs))
    ensures r.Err? ==> file.inputs == old(file.inputs) && !r.error.MissingConfig?
    ensures r.Ok? ==>
      && Readable(file.inputs)
      && RestOf(file.inputs) == RestOf(old(file.inputs))
      && ServicesOf(file.inputs) == Switched(ServicesOf(old(file.inputs)), before, after)
  {
    var manager := new FlakeServiceManager(file, false);
    var entered := manager.Enter();
    if entered.Err? {
      return entered;
    }
    SwitchServices(manager, before, after);
    SplitOfSwitched(file.inputs, before, after);
    r := manager.Exit(false);
  }

  lemma SplitOfSwitched(file: Inputs, before: Url, after: Url)
    requires Readable(file)
    ensures var services := Switched(ServicesOf(file), before, after);
            var written := Merged(RestOf(file), services);
            Readable(written) && RestOf(written) == RestOf(file) && ServicesOf(written) == services
  {
    SplitOfMerged(RestOf(file), Switched(ServicesOf(file), before, after));
  }

  /** One migration is enough, and a second changes nothing. */
  lemma MigrationSettles(services: Services)
    ensures var after := Switched(services, SSO_NIXOS_CONFIG_URL, DEFAULT_NIXOS_CONFIG_URL);
            && !AnyFollows(after, SSO_NIXOS_CONFIG_URL)
            && (after == services <==> !AnyFollows(services, SSO_NIXOS_CONFIG_URL))
            && Switched(after, SSO_NIXOS_CONFIG_URL, DEFAULT_NIXOS_CONFIG_URL) == after
  {
    forall s ensures !IsSpModuleUrl(GetSpModuleUrl(DEFAULT_NIXOS_CONFIG_URL, s), SSO_NIXOS_CONFIG_URL) {
      DefaultModuleIsNotSso(s);
    }
    SwitchSettles(services, SSO_NIXOS_CONFIG_URL, DEFAULT_NIXOS_CONFIG_URL);
  }

  /** If no module of `b` is one of `a`, one switch from `a` to `b` is enough. */
  lemma SwitchSettles(services: Services, a: Url, b: Url)
    requires forall s :: !IsSpModuleUrl(GetSpModuleUrl(b, s), a)
    ensures var after := Switched(services, a, b);
            && !AnyFollows(after, a)
            && (after == services <==> !AnyFollows(services, a))
            && Switched(after, a, b) == after
  {
  }
}
