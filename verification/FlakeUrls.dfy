/** Flake URLs of service modules: base plus query pairs, read as a dictionary whose later pairs
    override earlier ones. */
module FlakeUrls {

  datatype Param = Param(key: string, value: string)

  /** A URL as split by the standard library, with its query parsed into pairs. */
  datatype Url = Url(scheme: string, netloc: string, path: string, query: seq<Param>, fragment: string)

  const MODULES_DIR: string := "sp-modules/"

  const DEFAULT_NIXOS_CONFIG_URL: Url :=
    Url("git+https", "git.selfprivacy.org", "/SelfPrivacy/selfprivacy-nixos-config.git", [Param("ref", "flakes")], "")

  const SSO_NIXOS_CONFIG_URL: Url := SetFlakeRef(DEFAULT_NIXOS_CONFIG_URL, "sso")

  function AsDict(query: seq<Param>): map<string, string> {
    if query == [] then map[]
    else AsDict(query[..|query| - 1])[query[|query| - 1].key := query[|query| - 1].value]
  }

  function ReplaceRef(query: seq<Param>, ref: string): seq<Param> {
    if query == [] then []
    else
      var last := query[|query| - 1];
      ReplaceRef(query[..|query| - 1], ref) + [if last.key == "ref" then Param("ref", ref) else last]
  }

  predicate HasKey(query: seq<Param>, key: string) { exists p :: p in query && p.key == key }

  function SetFlakeRef(url: Url, ref: string): Url {
    var query := ReplaceRef(url.query, ref);
    url.(query := if HasKey(query, "ref") then query else query + [Param("ref", ref)])
  }

  function WithoutDir(query: seq<Param>): seq<Param> {
    if query == [] then []
    else
      var last := query[|query| - 1];
      WithoutDir(query[..|query| - 1]) + (if last.key == "dir" then [] else [last])
  }

  function GetSpModuleUrl(config: Url, service: string): Url {
    config.(query := WithoutDir(config.query) + [Param("dir", MODULES_DIR + service)])
  }

  predicate IsSpModuleUrl(service: Url, config: Url) {
    && (service.scheme, service.netloc, service.path) == (config.scheme, config.netloc, config.path)
    && var query := AsDict(service.query);
    var dir := if "dir" in query then query["dir"] else "";
    MODULES_DIR <= dir && query - {"dir"} == AsDict(config.query)
  }

  /** The URL as text, `urlunsplit` of `urlencode` where nothing has to be escaped. */
  function Render(url: Url): string {
    url.scheme + "://" + url.netloc + url.path + RenderQuery(url.query)
    + (if url.fragment == "" then "" else "#" + url.fragment)
  }

  function RenderQuery(query: seq<Param>): string {
    if query == [] then ""
    else
      var last := query[|query| - 1];
      RenderQuery(query[..|query| - 1]) + (if |query| == 1 then "?" else "&") + last.key + "=" + last.value
  }

  lemma RenderRef(ref: string)
    ensures RenderQuery([Param("ref", ref)]) == "?ref=" + ref
  {
    var query := [Param("ref", ref)];
    assert query[..0] == [] && RenderQuery(query[..0]) == "";
    assert "?ref=" == "" + "?" + "ref" + "=";
  }

  lemma RefReplaced(ref: string, other: string)
    ensures ReplaceRef([Param("ref", ref)], other) == [Param("ref", other)]
    ensures HasKey([Param("ref", other)], "ref")
  {
    var query, replaced := [Param("ref", ref)], [Param("ref", other)];
    assert query[..0] == [] && ReplaceRef(query[..0], other) == [];
    assert replaced[0] in replaced;
  }

  /** The two configurations, as text. */
  lemma ConfigUrls()
    ensures Render(DEFAULT_NIXOS_CONFIG_URL)
         == "git+https" + "://" + "git.selfprivacy.org" + "/SelfPrivacy/selfprivacy-nixos-config.git"
            + ("?ref=" + "flakes") + ""
    ensures Render(SSO_NIXOS_CONFIG_URL)
         == "git+https" + "://" + "git.selfprivacy.org" + "/SelfPrivacy/selfprivacy-nixos-config.git"
            + ("?ref=" + "sso") + ""
  {
    RenderRef("flakes");
    RenderRef("sso");
    RefReplaced("flakes", "sso");
  }

  /** The URL carries no `dir` of its own. */
  predicate NoDir(url: Url) { "dir" !in AsDict(url.query) }

  lemma DictOfAppended(query: seq<Param>, p: Param)
    ensures AsDict(query + [p]) == AsDict(query)[p.key := p.value]
  {
    assert (query + [p])[..|query|] == query;
  }

  lemma {:induction false} HasKeyInDict(query: seq<Param>, key: string)
    ensures HasKey(query, key) <==> key in AsDict(query)
  {
    if query != [] {
      var front, last := query[..|query| - 1], query[|query| - 1];
      HasKeyInDict(front, key);
      assert query == front + [last];
      assert forall p :: p in query <==> p in front || p == last;
    }
  }

  lemma {:induction false} ReplaceRefDict(query: seq<Param>, ref: string)
    ensures var d := AsDict(query); AsDict(ReplaceRef(query, ref)) == if "ref" in d then d["ref" := ref] else d
  {
    if query != [] {
      var front, last := query[..|query| - 1], query[|query| - 1];
      var replaced := if last.key == "ref" then Param("ref", ref) else last;
      ReplaceRefDict(front, ref);
      DictOfAppended(ReplaceRef(front, ref), replaced);
      OverrideCommutes(AsDict(front), "ref", ref, last.key, last.value);
    }
  }

  /** Overriding one key in a dictionary, if present, commutes with setting another. */
  lemma OverrideCommutes(d: map<string, string>, k: string, v: string, key: string, value: string)
    ensures var full := d[key := value];
            (if k in d then d[k := v] else d)[key := if key == k then v else value]
            == if k in full then full[k := v] else full
  {
  }

  lemma {:induction false} ReplaceRefInPlace(query: seq<Param>, ref: string)
    ensures var r := ReplaceRef(query, ref);
            |r| == |query|
            && forall i :: 0 <= i < |r| ==> r[i] == if query[i].key == "ref" then Param("ref", ref) else query[i]
  {
    if query != [] {
      ReplaceRefInPlace(query[..|query| - 1], ref);
    }
  }

  /** The parameters stay where they are; a ref that was not there comes last. */
  lemma SetFlakeRefInPlace(url: Url, ref: string)
    ensures var before, after := url.query, SetFlakeRef(url, ref).query;
            && |after| == |before| + (if "ref" in AsDict(before) then 0 else 1)
            && (forall i :: 0 <= i < |before| ==>
                  after[i] == if before[i].key == "ref" then Param("ref", ref) else before[i])
            && ("ref" !in AsDict(before) ==> after[|before|] == Param("ref", ref))
  {
    ReplaceRefInPlace(url.query, ref);
    ReplaceRefDict(url.query, ref);
    HasKeyInDict(ReplaceRef(url.query, ref), "ref");
  }

  /** Setting the ref sets that key of the dictionary and nothing else, however often it occurs. */
  lemma SetFlakeRefDict(url: Url, ref: string)
    ensures AsDict(SetFlakeRef(url, ref).query) == AsDict(url.query)["ref" := ref]
    ensures SetFlakeRef(url, ref).(query := url.query) == url
  {
    var query := ReplaceRef(url.query, ref);
    ReplaceRefDict(url.query, ref);
    HasKeyInDict(query, "ref");
    DictOfAppended(query, Param("ref", ref));
  }

  lemma {:induction false} WithoutDirDict(query: seq<Param>)
    ensures AsDict(WithoutDir(query)) == AsDict(query) - {"dir"}
  {
    if query != [] {
      var front, last := query[..|query| - 1], query[|query| - 1];
      WithoutDirDict(front);
      SetThenRemove(AsDict(front), "dir", last.key, last.value);
      if last.key == "dir" {
        assert WithoutDir(query) == WithoutDir(front);
      } else {
        DictOfAppended(WithoutDir(front), last);
      }
    }
  }

  lemma SetThenRemove(d: map<string, string>, k: string, key: string, value: string)
    ensures d[key := value] - {k} == if key == k then d - {k} else (d - {k})[key := value]
  {
  }

  lemma ModuleUrlDict(config: Url, service: string)
    ensures AsDict(GetSpModuleUrl(config, service).query) == AsDict(config.query)["dir" := MODULES_DIR + service]
    ensures GetSpModuleUrl(config, service).(query := config.query) == config
  {
    WithoutDirDict(config.query);
    DictOfAppended(WithoutDir(config.query), Param("dir", MODULES_DIR + service));
    assert (AsDict(config.query) - {"dir"})["dir" := MODULES_DIR + service]
        == AsDict(config.query)["dir" := MODULES_DIR + service];
  }

  lemma {:induction false} WithoutDirSame(query: seq<Param>)
    requires forall p :: p in query ==> p.key != "dir"
    ensures WithoutDir(query) == query
  {
    if query != [] {
      var front, last := query[..|query| - 1], query[|query| - 1];
      WithoutDirSame(front);
      assert last in query;
    }
  }

  lemma {:induction false} WithoutDirDrops(query: seq<Param>)
    ensures forall p :: p in WithoutDir(query) <==> p in query && p.key != "dir"
    ensures forall p: Param :: p.key != "dir" ==> multiset(WithoutDir(query))[p] == multiset(query)[p]
  {
    if query != [] {
      var front, last := query[..|query| - 1], query[|query| - 1];
      WithoutDirDrops(front);
      assert query == front + [last];
    }
  }

  lemma {:induction false} WithoutDirInOrder(a: seq<Param>, b: seq<Param>)
    ensures WithoutDir(a + b) == WithoutDir(a) + WithoutDir(b)
  {
    if b == [] {
      assert a + b == a;
    } else {
      var front := b[..|b| - 1];
      WithoutDirInOrder(a, front);
      assert (a + b)[..|a + b| - 1] == a + front;
    }
  }

  /** A module URL ends with its only `dir`, after all other parameters of the configuration. */
  lemma ModuleUrlQuery(config: Url, service: string)
    ensures var query := GetSpModuleUrl(config, service).query;
            var n := |query| - 1;
            && n >= 0 && query[n] == Param("dir", "sp-modules/" + service)
            && (forall p :: p in query[..n] ==> p.key != "dir")
            && (forall p: Param :: p.key != "dir" ==> multiset(query[..n])[p] == multiset(config.query)[p])
  {
    WithoutDirDrops(config.query);
    var query := GetSpModuleUrl(config, service).query;
    assert query[..|query| - 1] == WithoutDir(config.query);
  }

  /** For a configuration without `dir`, the module URL is the configuration's with one more
      parameter at the end. */
  lemma ModuleUrlAppends(config: Url, service: string)
    requires NoDir(config)
    ensures GetSpModuleUrl(config, service) == config.(query := config.query + [Param("dir", "sp-modules/" + service)])
  {
    HasKeyInDict(config.query, "dir");
    WithoutDirSame(config.query);
  }

  /** A module URL built from one configuration follows another exactly when both have the same
      base and the other's dictionary is the first's, which has no `dir` then. */
  lemma ModuleFollows(config: Url, service: string, other: Url)
    ensures IsSpModuleUrl(GetSpModuleUrl(config, service), other) <==>
              && (config.scheme, config.netloc, config.path) == (other.scheme, other.netloc, other.path)
              && AsDict(config.query) - {"dir"} == AsDict(other.query)
  {
    ModuleUrlDict(config, service);
    var query := AsDict(config.query)["dir" := MODULES_DIR + service];
    assert query - {"dir"} == AsDict(config.query) - {"dir"};
    assert (MODULES_DIR + service)[..|MODULES_DIR|] == MODULES_DIR;
  }

  /** The module built for a configuration is recognised as its own exactly when the
      configuration URL carries no `dir`. */
  lemma ModuleFollowsItsConfig(config: Url, service: string)
    ensures IsSpModuleUrl(GetSpModuleUrl(config, service), config) <==> NoDir(config)
  {
    ModuleFollows(config, service, config);
    var d := AsDict(config.query);
    if NoDir(config) {
      assert d - {"dir"} == d;
    }
    if d - {"dir"} == d {
      assert "dir" !in d - {"dir"};
    }
  }

  /** Same base, and the same dictionary of query parameters. */
  predicate SameTarget(a: Url, b: Url) {
    (a.scheme, a.netloc, a.path) == (b.scheme, b.netloc, b.path) && AsDict(a.query) == AsDict(b.query)
  }

  /** What follows a configuration is, up to the order and repetition of parameters and the
      fragment, the module URL of some service in it; nothing follows one that carries a `dir`. */
  lemma FollowersAreModules(url: Url, config: Url)
    ensures IsSpModuleUrl(url, config) <==>
              NoDir(config) && exists service :: SameTarget(url, GetSpModuleUrl(config, service))
  {
    if IsSpModuleUrl(url, config) {
      FollowerIsModule(url, config);
    }
    if NoDir(config) && exists service :: SameTarget(url, GetSpModuleUrl(config, service)) {
      var service :| SameTarget(url, GetSpModuleUrl(config, service));
      ModuleFollowsItsConfig(config, service);
    }
  }

  lemma FollowerIsModule(url: Url, config: Url)
    requires IsSpModuleUrl(url, config)
    ensures NoDir(config)
    ensures SameTarget(url, GetSpModuleUrl(config, AsDict(url.query)["dir"][|MODULES_DIR|..]))
  {
    var d := AsDict(url.query);
    DirSplit(d, AsDict(config.query));
    ModuleUrlDict(config, d["dir"][|MODULES_DIR|..]);
  }

  lemma DirSplit(d: map<string, string>, c: map<string, string>)
    requires "dir" in d && MODULES_DIR <= d["dir"] && d - {"dir"} == c
    ensures "dir" !in c && d == c["dir" := MODULES_DIR + d["dir"][|MODULES_DIR|..]]
  {
    assert d["dir"] == MODULES_DIR + d["dir"][|MODULES_DIR|..];
  }

  /** A module of the default configuration is not one of the SSO branch. */
  lemma DefaultModuleIsNotSso(service: string)
    ensures !IsSpModuleUrl(GetSpModuleUrl(DEFAULT_NIXOS_CONFIG_URL, service), SSO_NIXOS_CONFIG_URL)
  {
    ModuleFollows(DEFAULT_NIXOS_CONFIG_URL, service, SSO_NIXOS_CONFIG_URL);
    SetFlakeRefDict(DEFAULT_NIXOS_CONFIG_URL, "sso");
    DefaultRef();
    BranchesDiffer(AsDict(DEFAULT_NIXOS_CONFIG_URL.query), AsDict(SSO_NIXOS_CONFIG_URL.query));
  }

  lemma DefaultRef()
    ensures AsDict(DEFAULT_NIXOS_CONFIG_URL.query) == map["ref" := "flakes"]
  {
    var query := [Param("ref", "flakes")];
    assert query[..0] == [] && AsDict(query[..0]) == map[];
  }

  lemma BranchesDiffer(default: map<string, string>, sso: map<string, string>)
    requires default == map["ref" := "flakes"] && sso == default["ref" := "sso"]
    ensures default - {"dir"} != sso
  {
    assert (default - {"dir"})["ref"] == "flakes";
  }
}
