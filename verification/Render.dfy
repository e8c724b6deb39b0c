/** Rendering a connector's configuration from what the hub says: built from the hub, tuned by
    operators, and with the hub's own fields put back last. */
module Render {
  import opened Outcome
  import opened Features
  import opened Json
  import opened Overrides

  datatype LayoutMode = Operational | Universal

  function ModeLabel(m: LayoutMode): string {
    if m == Operational then "operational" else "universal"
  }

  datatype Primary = Primary(blockLayout: LayoutMode, maxSeqLen: Option<nat>, g2Blocks: Option<nat>,
                             g2MemoryGib: Option<real>)

  /** What the hub aggregates for connectors. */
  datatype Hub = Hub(primary: Primary, features: seq<Descriptor>, baseConfig: Json)

  /** What the operator of one connector asks for. */
  datatype Options = Options(features: seq<string>, role: Option<string>, overrides: seq<string>,
                             config: Option<string>)

  datatype Rendered = Rendered(effective: seq<FeatureKey>, config: Json)

  // ---- Building blocks ----

  function Labels(effective: seq<FeatureKey>): Json {
    Arr(seq(|effective|, i requires 0 <= i < |effective| => Str(AsLabel(effective[i]))))
  }

  function HubFields(effective: seq<FeatureKey>, url: string): Json {
    Obj(map["url" := Str(url), "features" := Labels(effective)])
  }

  function DefaultFields(p: Primary): Json {
    Obj(map["block_layout" := Str(ModeLabel(p.blockLayout))])
  }

  function CacheFields(p: Primary): map<string, Json> {
    match (p.g2Blocks, p.g2MemoryGib)
    case (Some(blocks), _) => map["cache" := Obj(map["host" := Obj(map["num_blocks" := Num(blocks as real)])])]
    case (None, Some(gib)) => map["cache" := Obj(map["host" := Obj(map["cache_size_gb" := Num(gib)])])]
    case (None, None) => map[]
  }

  function RoleFields(role: Option<string>): map<string, Json> {
    match role case None => map[] case Some(r) => map["disagg" := Obj(map["role" := Str(r)])]
  }

  function LeaderFields(p: Primary, effective: seq<FeatureKey>, url: string, role: Option<string>): map<string, Json> {
    var length := match p.maxSeqLen case None => map[] case Some(n) => map["max_seq_len" := Num(n as real)];
    map["hub" := HubFields(effective, url)] + length + CacheFields(p) + RoleFields(role)
  }

  /** The hub's proposal, before any tuning. */
  function BuildExtraConfig(p: Primary, effective: seq<FeatureKey>, url: string,
                            role: Option<string>): (r: Result<Json>)
    ensures r.Ok? <==> (ConditionalDisagg in effective <==> role.Some?)
  {
    if ConditionalDisagg in effective && role.None? then Err("disagg is enabled but no role was given")
    else if ConditionalDisagg !in effective && role.Some? then Err("a role was given but disagg is not effective")
    else
      Ok(Obj(map["default" := DefaultFields(p), "leader" := Obj(LeaderFields(p, effective, url, role))]))
  }

  /** A number of the configuration that may be absent. */
  ghost predicate ReadsNumber(config: Json, path: Path, n: Option<real>) {
    Get(config, path) == match n case None => None case Some(x) => Some(Num(x))
  }

  lemma GetIn(j: Json, k: string, rest: Path)
    ensures Get(j, [k] + rest) == if j.Obj? && k in j.fields then Get(j.fields[k], rest) else None
  {
    assert ([k] + rest)[1..] == rest;
  }

  function MaybeNumber(n: Option<nat>): Option<real> {
    match n case None => None case Some(x) => Some(x as real)
  }

  /** The host cache is given by blocks where a block count is known, and else by size. */
  lemma CacheReads(p: Primary, leader: Json)
    requires leader.Obj? && ("cache" in leader.fields <==> "cache" in CacheFields(p))
    requires "cache" in leader.fields ==> leader.fields["cache"] == CacheFields(p)["cache"]
    ensures ReadsNumber(leader, ["cache"] + (["host"] + (["num_blocks"] + [])), MaybeNumber(p.g2Blocks))
    ensures ReadsNumber(leader, ["cache"] + (["host"] + (["cache_size_gb"] + [])),
        if p.g2Blocks.None? then p.g2MemoryGib else None)
  {
    GetIn(leader, "cache", ["host"] + (["num_blocks"] + []));
    GetIn(leader, "cache", ["host"] + (["cache_size_gb"] + []));
    if "cache" in leader.fields {
      var cache := leader.fields["cache"];
      GetIn(cache, "host", ["num_blocks"] + []);
      GetIn(cache, "host", ["cache_size_gb"] + []);
      GetIn(cache.fields["host"], "num_blocks", []);
      GetIn(cache.fields["host"], "cache_size_gb", []);
    }
  }

  const LENGTH_PATH: Path := ["leader", "max_seq_len"]
  const BLOCKS_PATH: Path := ["leader", "cache", "host", "num_blocks"]
  const MEMORY_PATH: Path := ["leader", "cache", "host", "cache_size_gb"]

  lemma BuiltLength(p: Primary, effective: seq<FeatureKey>, url: string, role: Option<string>, config: Json)
    requires BuildExtraConfig(p, effective, url, role) == Ok(config)
    ensures ReadsNumber(config, LENGTH_PATH, MaybeNumber(p.maxSeqLen))
  {
    assert LENGTH_PATH == ["leader"] + (["max_seq_len"] + []);
    GetIn(config, "leader", ["max_seq_len"] + []);
    GetIn(config.fields["leader"], "max_seq_len", []);
  }

  lemma BuiltCache(p: Primary, effective: seq<FeatureKey>, url: string, role: Option<string>, config: Json)
    requires BuildExtraConfig(p, effective, url, role) == Ok(config)
    ensures ReadsNumber(config, BLOCKS_PATH, MaybeNumber(p.g2Blocks))
    ensures ReadsNumber(config, MEMORY_PATH, if p.g2Blocks.None? then p.g2MemoryGib else None)
  {
    var leader := config.fields["leader"];
    assert BLOCKS_PATH == ["leader"] + (["cache"] + (["host"] + (["num_blocks"] + [])));
    assert MEMORY_PATH == ["leader"] + (["cache"] + (["host"] + (["cache_size_gb"] + [])));
    GetIn(config, "leader", ["cache"] + (["host"] + (["num_blocks"] + [])));
    GetIn(config, "leader", ["cache"] + (["host"] + (["cache_size_gb"] + [])));
    CacheReads(p, leader);
  }

  lemma BuiltRole(p: Primary, effective: seq<FeatureKey>, url: string, role: Option<string>, config: Json)
    requires BuildExtraConfig(p, effective, url, role) == Ok(config)
    ensures Get(config, ROLE_PATH) == match role case None => None case Some(r) => Some(Str(r))
  {
    if role.Some? {
      GetThree(config, "leader", "disagg", "role");
    } else {
      assert ROLE_PATH == ["leader"] + (["disagg"] + ["role"]);
      GetIn(config, "leader", ["disagg"] + ["role"]);
      GetIn(config.fields["leader"], "disagg", ["role"]);
    }
  }

  /** What a built configuration says: the hub's fields, the role, the longest sequence, and the
      host cache by blocks where a block count is known and else by size. */
  lemma BuiltReads(p: Primary, effective: seq<FeatureKey>, url: string, role: Option<string>, config: Json)
    requires BuildExtraConfig(p, effective, url, role) == Ok(config)
    ensures Authoritative(p, effective, url, role, config)
    ensures role.None? ==> Get(config, ROLE_PATH).None?
    ensures ReadsNumber(config, LENGTH_PATH, MaybeNumber(p.maxSeqLen))
    ensures ReadsNumber(config, BLOCKS_PATH, MaybeNumber(p.g2Blocks))
    ensures ReadsNumber(config, MEMORY_PATH, if p.g2Blocks.None? then p.g2MemoryGib else None)
  {
    BuiltLength(p, effective, url, role, config);
    BuiltCache(p, effective, url, role, config);
    GetTwo(config, "default", "block_layout");
    GetThree(config, "leader", "hub", "url");
    GetThree(config, "leader", "hub", "features");
    BuiltRole(p, effective, url, role, config);
  }

  /** The fields that are the hub's to decide. */
  function AuthoritativeOverlay(p: Primary, effective: seq<FeatureKey>, url: string, role: Option<string>): Json {
    var disagg := if ConditionalDisagg in effective then RoleFields(role) else map[];
    Obj(map["default" := DefaultFields(p),
            "leader" := Obj(map["hub" := HubFields(effective, url)] + disagg)])
  }

  // ---- The overlay wins, and touches nothing else ----

  const LAYOUT_PATH: Path := ["default", "block_layout"]
  const URL_PATH: Path := ["leader", "hub", "url"]
  const FEATURES_PATH: Path := ["leader", "hub", "features"]
  const ROLE_PATH: Path := ["leader", "disagg", "role"]

  /** The configuration says what the hub says. */
  ghost predicate Authoritative(p: Primary, effective: seq<FeatureKey>, url: string, role: Option<string>,
                                config: Json) {
    && Get(config, LAYOUT_PATH) == Some(Str(ModeLabel(p.blockLayout)))
    && Get(config, URL_PATH) == Some(Str(url))
    && Get(config, FEATURES_PATH) == Some(Labels(effective))
    && (ConditionalDisagg in effective && role.Some? ==> Get(config, ROLE_PATH) == Some(Str(role.value)))
  }

  /** The path is none of the hub's, nor above or below one. */
  ghost predicate Free(effective: seq<FeatureKey>, role: Option<string>, path: Path) {
    && Diverge(LAYOUT_PATH, path) && Diverge(URL_PATH, path) && Diverge(FEATURES_PATH, path)
    && (ConditionalDisagg in effective && role.Some? ==> Diverge(ROLE_PATH, path))
  }

  lemma GetTwo(j: Json, a: string, b: string)
    requires j.Obj? && a in j.fields && j.fields[a].Obj? && b in j.fields[a].fields
    ensures Get(j, [a, b]) == Some(j.fields[a].fields[b])
  {
    assert [a, b][1..] == [b] && [b][1..] == [];
    assert Get(j.fields[a], [b]) == Some(j.fields[a].fields[b]);
  }

  lemma GetThree(j: Json, a: string, b: string, c: string)
    requires j.Obj? && a in j.fields && j.fields[a].Obj? && b in j.fields[a].fields
    requires j.fields[a].fields[b].Obj? && c in j.fields[a].fields[b].fields
    ensures Get(j, [a, b, c]) == Some(j.fields[a].fields[b].fields[c])
  {
    assert [a, b, c][1..] == [b, c];
    GetTwo(j.fields[a], b, c);
  }

  lemma OverlayReads(p: Primary, effective: seq<FeatureKey>, url: string, role: Option<string>)
    ensures Authoritative(p, effective, url, role, AuthoritativeOverlay(p, effective, url, role))
  {
    var o := AuthoritativeOverlay(p, effective, url, role);
    GetTwo(o, "default", "block_layout");
    GetThree(o, "leader", "hub", "url");
    GetThree(o, "leader", "hub", "features");
    if ConditionalDisagg in effective && role.Some? {
      GetThree(o, "leader", "disagg", "role");
    }
  }

  lemma MergedLeaf(before: Json, overlay: Json, path: Path, v: Json)
    requires Get(overlay, path) == Some(v) && !v.Obj?
    ensures Get(Merged(before, overlay), path) == Some(v)
  {
    MergedGet(before, overlay, path);
  }

  /** Whatever was there before, the hub's fields come out as the hub's. */
  lemma OverlayWins(p: Primary, effective: seq<FeatureKey>, url: string, role: Option<string>, before: Json)
    ensures Authoritative(p, effective, url, role, Merged(before, AuthoritativeOverlay(p, effective, url, role)))
  {
    var o := AuthoritativeOverlay(p, effective, url, role);
    OverlayReads(p, effective, url, role);
    MergedLeaf(before, o, LAYOUT_PATH, Str(ModeLabel(p.blockLayout)));
    MergedLeaf(before, o, URL_PATH, Str(url));
    MergedLeaf(before, o, FEATURES_PATH, Labels(effective));
    if ConditionalDisagg in effective && role.Some? {
      MergedLeaf(before, o, ROLE_PATH, Str(role.value));
    }
  }

  /** The value says nothing about the path, and has nothing in its way. */
  predicate Silent(j: Json, path: Path) {
    Get(j, path).None? && !Blocked(j, path)
  }

  lemma DivergeRest(p: Path, path: Path)
    requires Diverge(p, path)
    ensures p != [] && path != []
    ensures p[0] == path[0] ==> Diverge(p[1..], path[1..])
  {
    assert p != [] && path != [];
    assert p == [p[0]] + p[1..] && path == [path[0]] + path[1..];
  }

  /** An object is silent about a path if the field the path enters is, or is not there. */
  lemma SilentField(j: Json, path: Path)
    requires j.Obj? && path != [] && (path[0] in j.fields ==> Silent(j.fields[path[0]], path[1..]))
    ensures Silent(j, path)
  {
  }

  lemma HubFieldsSilent(effective: seq<FeatureKey>, url: string, path: Path)
    requires Diverge(["url"], path) && Diverge(["features"], path)
    ensures Silent(HubFields(effective, url), path)
  {
    DivergeRest(["url"], path);
    DivergeRest(["features"], path);
  }

  lemma OneFieldSilent(k: string, v: Json, path: Path)
    requires Diverge([k], path)
    ensures Silent(Obj(map[k := v]), path)
  {
    DivergeRest([k], path);
  }

  /** A free path is not in the overlay, and nothing of the overlay lies on it. */
  lemma FreeIsSilent(p: Primary, effective: seq<FeatureKey>, url: string, role: Option<string>, path: Path)
    requires Free(effective, role, path)
    ensures Silent(AuthoritativeOverlay(p, effective, url, role), path)
  {
    var o := AuthoritativeOverlay(p, effective, url, role);
    DivergeRest(LAYOUT_PATH, path);
    DivergeRest(URL_PATH, path);
    if path[0] == "default" {
      assert LAYOUT_PATH[1..] == ["block_layout"];
      OneFieldSilent("block_layout", Str(ModeLabel(p.blockLayout)), path[1..]);
    } else if path[0] == "leader" {
      LeaderIsSilent(o.fields["leader"], effective, url, role, path);
    }
    SilentField(o, path);
  }

  lemma LeaderIsSilent(leader: Json, effective: seq<FeatureKey>, url: string, role: Option<string>, path: Path)
    requires Free(effective, role, path) && path[0] == "leader"
    requires leader == Obj(map["hub" := HubFields(effective, url)] +
        if ConditionalDisagg in effective then RoleFields(role) else map[])
    ensures Silent(leader, path[1..])
  {
    var rest := path[1..];
    DivergeRest(URL_PATH, path);
    DivergeRest(FEATURES_PATH, path);
    assert URL_PATH[1..] == ["hub", "url"] && FEATURES_PATH[1..] == ["hub", "features"];
    DivergeRest(["hub", "url"], rest);
    DivergeRest(["hub", "features"], rest);
    if rest[0] == "hub" {
      assert ["hub", "url"][1..] == ["url"] && ["hub", "features"][1..] == ["features"];
      HubFieldsSilent(effective, url, rest[1..]);
    } else if rest[0] in leader.fields {
      DivergeRest(ROLE_PATH, path);
      assert ROLE_PATH[1..] == ["disagg", "role"];
      DivergeRest(["disagg", "role"], rest);
      assert ["disagg", "role"][1..] == ["role"];
      OneFieldSilent("role", Str(role.value), rest[1..]);
    }
    SilentField(leader, rest);
  }

  /** Every free path reads as it did before the overlay. */
  lemma OverlayLeavesFree(p: Primary, effective: seq<FeatureKey>, url: string, role: Option<string>, before: Json,
                          path: Path)
    requires Free(effective, role, path)
    ensures Get(Merged(before, AuthoritativeOverlay(p, effective, url, role)), path) == Get(before, path)
  {
    FreeIsSilent(p, effective, url, role, path);
    MergedGet(before, AuthoritativeOverlay(p, effective, url, role), path);
  }

  // ---- The effective features of a role ----

  /** The router is kept for a prefill instance, or if asked for by name. */
  predicate KeepsRouter(opts: Options) {
    opts.role == Some("prefill") || "prefill_router" in opts.features
  }

  function WithoutRouter(keys: seq<FeatureKey>): seq<FeatureKey> {
    if keys == [] then []
    else
      var n := |keys| - 1;
      WithoutRouter(keys[..n]) + if keys[n] == PrefillRouter then [] else [keys[n]]
  }

  lemma {:induction false} WithoutRouterKeeps(keys: seq<FeatureKey>)
    requires StrictlySorted(keys)
    ensures StrictlySorted(WithoutRouter(keys))
    ensures forall k :: k in WithoutRouter(keys) <==> k in keys && k != PrefillRouter
  {
    if keys != [] {
      var n := |keys| - 1;
      WithoutRouterKeeps(keys[..n]);
      assert keys == keys[..n] + [keys[n]];
      forall k | k in WithoutRouter(keys[..n]) ensures Position(k) < Position(keys[n]) {
        var i :| 0 <= i < n && keys[..n][i] == k;
        assert keys[i] == k;
      }
    }
  }

  ghost predicate IsEffective(hub: Hub, opts: Options, keys: seq<FeatureKey>) {
    && StrictlySorted(keys)
    && forall k :: k in keys <==>
         Reaches(hub.features, Selection(hub.features, opts.features), k) && (k == PrefillRouter ==> KeepsRouter(opts))
  }

  /** The request can be met: known labels, and every dependency on the way enabled. */
  ghost predicate Resolvable(hub: Hub, opts: Options) {
    && (forall s <- opts.features :: GoodLabel(hub.features, s))
    && Satisfiable(hub.features, Selection(hub.features, opts.features))
  }

  method EffectiveFeatures(hub: Hub, opts: Options) returns (r: Result<seq<FeatureKey>>)
    ensures r.Ok? <==> Resolvable(hub, opts)
    ensures r.Ok? ==> IsEffective(hub, opts, r.value)
  {
    r := ResolveFeatures(hub.features, opts.features);
    if r.Ok? && !KeepsRouter(opts) {
      WithoutRouterKeeps(r.value);
      r := Ok(WithoutRouter(r.value));
    }
  }

  /** A prefill instance keeps the router wherever it is reachable; any other keeps it only if it was
      also asked for by name. All other features are in exactly if reachable. */
  lemma EffectiveIff(hub: Hub, opts: Options, keys: seq<FeatureKey>, k: FeatureKey)
    requires IsEffective(hub, opts, keys)
    ensures var reached := Reaches(hub.features, Selection(hub.features, opts.features), k);
            && (k != PrefillRouter ==> (k in keys <==> reached))
            && (k == PrefillRouter && opts.role == Some("prefill") ==> (k in keys <==> reached))
            && (k == PrefillRouter && opts.role != Some("prefill") ==>
                  (k in keys <==> reached && "prefill_router" in opts.features))
  {
  }

  ghost predicate DependenciesMet(features: seq<Descriptor>, keys: seq<FeatureKey>) {
    forall k <- keys :: forall dep <- Needs(features, k) :: dep in keys
  }

  /** The effective features still hold all their dependencies, unless the router was dropped
      and another reachable feature depends on it. */
  lemma EffectiveDependencies(hub: Hub, opts: Options, keys: seq<FeatureKey>)
    requires IsEffective(hub, opts, keys)
    ensures DependenciesMet(hub.features, keys) <==>
              KeepsRouter(opts)
              || forall k | k != PrefillRouter && Reaches(hub.features, Selection(hub.features, opts.features), k) ::
                PrefillRouter !in Needs(hub.features, k)
  {
    var from := Selection(hub.features, opts.features);
    forall k, dep | k in keys && dep in Needs(hub.features, k) ensures Reaches(hub.features, from, dep) {
      assert Brings(hub.features, k, dep);
      ReachesStep(hub.features, from, k, dep);
    }
  }

  /** The dependencies the managers of the repository declare: disagg on p2p, the others on none. */
  function OwnDependencies(k: FeatureKey): seq<FeatureKey> {
    if k == ConditionalDisagg then [P2P] else []
  }

  ghost predicate OwnHub(features: seq<Descriptor>) {
    forall i | 0 <= i < |features| :: features[i].dependencies == OwnDependencies(features[i].key)
  }

  lemma {:induction false} OwnHubNeeds(features: seq<Descriptor>, k: FeatureKey)
    requires OwnHub(features)
    ensures Needs(features, k) == OwnDependencies(k) || Needs(features, k) == []
  {
    if features != [] && features[0].key != k {
      OwnHubNeeds(features[1..], k);
    }
  }

  /** With the repository's own managers, whatever they imply, the effective features hold all
      their dependencies, for every request and role. */
  lemma OwnHubDependenciesMet(hub: Hub, opts: Options, keys: seq<FeatureKey>)
    requires OwnHub(hub.features) && IsEffective(hub, opts, keys)
    ensures DependenciesMet(hub.features, keys)
  {
    forall k: FeatureKey ensures PrefillRouter !in Needs(hub.features, k) {
      OwnHubNeeds(hub.features, k);
    }
    EffectiveDependencies(hub, opts, keys);
  }

  /** A hub whose disagg feature depends on the router; no manager of the repository declares
      that, but the resolver takes any descriptors. */
  const ROUTED: seq<Descriptor> := [Descriptor(ConditionalDisagg, [PrefillRouter], []),
                                    Descriptor(PrefillRouter, [], [])]

  lemma RoutedBrings(a: FeatureKey, b: FeatureKey)
    requires a == ConditionalDisagg || a == PrefillRouter
    ensures b in Needs(ROUTED, a) <==> a == ConditionalDisagg && b == PrefillRouter
    ensures Implies(ROUTED, a) == []
    ensures a in Enabled(ROUTED)
  {
    assert ROUTED[1..] == [Descriptor(PrefillRouter, [], [])];
    assert Find(ROUTED[1..], PrefillRouter) == Some(Descriptor(PrefillRouter, [], []));
    EnabledIff(ROUTED, a);
    assert ROUTED[0].key == ConditionalDisagg && ROUTED[1].key == PrefillRouter;
  }

  const BOTH: set<FeatureKey> := {ConditionalDisagg, PrefillRouter}

  lemma RoutedEnabled(x: FeatureKey)
    requires x in Enabled(ROUTED)
    ensures x in BOTH
  {
    EnabledIff(ROUTED, x);
    var i :| 0 <= i < |ROUTED| && ROUTED[i].key == x;
    assert i == 0 || i == 1;
  }

  lemma RoutedClosed()
    ensures Closed(ROUTED, Selection(ROUTED, []), BOTH)
  {
    forall x | x in Selection(ROUTED, []) ensures x in BOTH {
      RoutedEnabled(x);
    }
    forall a, b | a in BOTH && Brings(ROUTED, a, b) ensures b in BOTH {
      RoutedBrings(a, b);
    }
  }

  lemma RoutedReaches(k: FeatureKey)
    ensures Reaches(ROUTED, Selection(ROUTED, []), k) <==> k == ConditionalDisagg || k == PrefillRouter
  {
    var from := Selection(ROUTED, []);
    RoutedClosed();
    ReachableIsLeast(ROUTED, from);
    if k in BOTH {
      RoutedBrings(k, k);
      ReachesStart(ROUTED, from, k);
    }
  }

  /** Such a case: a decode instance of that hub asks for all there is. */
  lemma RouterDroppedFromUnderDisagg(hub: Hub, opts: Options)
    requires hub.features == ROUTED && opts.features == [] && opts.role == Some("decode")
    ensures Resolvable(hub, opts) && IsEffective(hub, opts, [ConditionalDisagg])
    ensures !DependenciesMet(hub.features, [ConditionalDisagg])
  {
    forall k ensures Reaches(ROUTED, Selection(ROUTED, []), k) <==> k == ConditionalDisagg || k == PrefillRouter {
      RoutedReaches(k);
    }
    forall k, dep | Reaches(ROUTED, Selection(ROUTED, []), k) && dep in Needs(ROUTED, k)
      ensures dep in Enabled(ROUTED) {
      RoutedBrings(k, dep);
      RoutedBrings(PrefillRouter, dep);
    }
    RoutedBrings(ConditionalDisagg, PrefillRouter);
    assert ConditionalDisagg in [ConditionalDisagg];
  }

  // ---- Rendering ----

  /** The configuration before the hub's fields are put back. */
  function Tuned(hub: Hub, opts: Options, parse: Parser, extra: Json): Json
    requires BlobOk(parse, opts.config) && forall raw <- opts.overrides :: WellFormed(raw)
  {
    var based := if hub.baseConfig.Null? then extra else Merged(extra, hub.baseConfig);
    OverrideAll(parse, WithBlob(parse, based, opts.config), opts.overrides)
  }

  ghost predicate Tunable(opts: Options, parse: Parser) {
    BlobOk(parse, opts.config) && forall raw <- opts.overrides :: WellFormed(raw)
  }

  /** `config` is what the options make of the effective features, with the hub's fields on top. */
  ghost predicate IsRendered(hub: Hub, url: string, opts: Options, parse: Parser, out: Rendered) {
    && IsEffective(hub, opts, out.effective)
    && Tunable(opts, parse)
    && var extra := BuildExtraConfig(hub.primary, out.effective, url, opts.role);
    && extra.Ok?
    && out.config == Merged(Tuned(hub, opts, parse, extra.value),
                            AuthoritativeOverlay(hub.primary, out.effective, url, opts.role))
  }

  lemma RenderedIsUnique(hub: Hub, url: string, opts: Options, parse: Parser, a: Rendered, b: Rendered)
    requires IsEffective(hub, opts, a.effective) && IsRendered(hub, url, opts, parse, b)
    ensures a.effective == b.effective
    ensures IsRendered(hub, url, opts, parse, a) ==> a == b
  {
    OrderIsUnique(a.effective, b.effective);
  }

  /** The configuration of one connector; `accepts` stands for the connector's own parsers. */
  method RenderConfig(hub: Hub, url: string, opts: Options, parse: Parser, accepts: Json -> bool)
    returns (r: Result<Rendered>)
    ensures r.Ok? <==> Resolvable(hub, opts) && exists out: Rendered ::
        IsRendered(hub, url, opts, parse, out) && accepts(out.config)
    ensures r.Ok? ==> IsRendered(hub, url, opts, parse, r.value) && accepts(r.value.config)
    ensures r.Ok? ==> Authoritative(hub.primary, r.value.effective, url, opts.role, r.value.config)
  {
    var effective := EffectiveFeatures(hub, opts);
    if effective.Err? {
      return Err(effective.reason);
    }
    forall out: Rendered | IsRendered(hub, url, opts, parse, out) ensures out.effective == effective.value {
      RenderedIsUnique(hub, url, opts, parse, Rendered(effective.value, Null), out);
    }
    var extra := BuildExtraConfig(hub.primary, effective.value, url, opts.role);
    if extra.Err? {
      return Err(extra.reason);
    }
    var config := new Config(extra.value);
    if !hub.baseConfig.Null? {
      config.Merge(hub.baseConfig);
    }
    var applied := config.ApplyOverrides(parse, opts.config, opts.overrides);
    if applied.Err? {
      return Err(applied.reason);
    }
    OverlayWins(hub.primary, effective.value, url, opts.role, config.root);
    config.Merge(AuthoritativeOverlay(hub.primary, effective.value, url, opts.role));
    var out := Rendered(effective.value, config.root);
    assert IsRendered(hub, url, opts, parse, out);
    if !accepts(out.config) {
      return Err("rejected by the connector's parsers");
    }
    return Ok(out);
  }

  /** A configuration is rendered only with a role given exactly when disagg is effective; in it the
      hub's fields are the hub's, the given role among them, and every free path reads as the tuning
      left it. */
  lemma RenderedReads(hub: Hub, url: string, opts: Options, parse: Parser, out: Rendered, path: Path)
    requires IsRendered(hub, url, opts, parse, out)
    ensures ConditionalDisagg in out.effective <==> opts.role.Some?
    ensures Authoritative(hub.primary, out.effective, url, opts.role, out.config)
    ensures Free(out.effective, opts.role, path) ==>
              Get(out.config, path) == Get(Tuned(hub, opts, parse,
                                                 BuildExtraConfig(hub.primary, out.effective, url, opts.role).value),
                                                   path)
  {
    var tuned := Tuned(hub, opts, parse, BuildExtraConfig(hub.primary, out.effective, url, opts.role).value);
    OverlayWins(hub.primary, out.effective, url, opts.role, tuned);
    if Free(out.effective, opts.role, path) {
      OverlayLeavesFree(hub.primary, out.effective, url, opts.role, tuned, path);
    }
  }

  lemma RoleFree(effective: seq<FeatureKey>, role: Option<string>)
    requires ConditionalDisagg !in effective
    ensures Free(effective, role, ROLE_PATH)
  {
    assert LAYOUT_PATH[0] != ROLE_PATH[0] && URL_PATH[1] != ROLE_PATH[1] && FEATURES_PATH[1] != ROLE_PATH[1];
  }

  /** The hub's fields, spelled out: the layout's name, and the label of every effective feature. */
  lemma RenderedFields(hub: Hub, url: string, opts: Options, parse: Parser, out: Rendered)
    requires IsRendered(hub, url, opts, parse, out)
    ensures Get(out.config, ["default", "block_layout"]) ==
        Some(Str(if hub.primary.blockLayout.Operational? then "operational" else "universal"))
    ensures Get(out.config, ["leader", "hub", "url"]) == Some(Str(url))
    ensures var labels := Get(out.config, ["leader", "hub", "features"]);
            && labels.Some? && labels.value.Arr? && |labels.value.items| == |out.effective|
            && forall i | 0 <= i < |out.effective| :: labels.value.items[i] == Str(AsLabel(out.effective[i]))
    ensures opts.role.Some? ==> Get(out.config, ["leader", "disagg", "role"]) == Some(Str(opts.role.value))
  {
    RenderedReads(hub, url, opts, parse, out, []);
  }

  /** A rendered configuration has a role if and only if disagg is effective or the tuning set one. */
  lemma RoleIff(hub: Hub, url: string, opts: Options, parse: Parser, out: Rendered)
    requires IsRendered(hub, url, opts, parse, out)
    ensures Get(out.config, ROLE_PATH).Some? <==>
            ConditionalDisagg in out.effective ||
              Get(Tuned(hub, opts, parse, BuildExtraConfig(hub.primary, out.effective, url, opts.role).value),
                  ROLE_PATH).Some?
  {
    RenderedReads(hub, url, opts, parse, out, ROLE_PATH);
    if ConditionalDisagg !in out.effective {
      RoleFree(out.effective, opts.role);
    }
  }

  /** So without disagg it has none if base configuration and blob say nothing of one and no override
      comes near it. */
  lemma RoleAbsent(hub: Hub, url: string, opts: Options, parse: Parser, out: Rendered)
    requires IsRendered(hub, url, opts, parse, out) && ConditionalDisagg !in out.effective
    requires hub.baseConfig.Null? || Silent(hub.baseConfig, ROLE_PATH)
    requires opts.config.Some? ==> Silent(parse(opts.config.value).value, ROLE_PATH)
    requires forall raw <- opts.overrides :: Diverge(PathOf(raw), ROLE_PATH)
    ensures Get(out.config, ROLE_PATH).None?
  {
    var extra := BuildExtraConfig(hub.primary, out.effective, url, opts.role);
    RoleIff(hub, url, opts, parse, out);
    BuiltRole(hub.primary, out.effective, url, opts.role, extra.value);
    TuningPrecedence(hub, opts, parse, extra.value, ROLE_PATH);
  }

  lemma NothingOffered(hub: Hub, opts: Options)
    requires hub.features == [] && opts.features == []
    ensures IsEffective(hub, opts, [])
  {
    ReachableIsLeast([], Selection([], []));
    assert Closed([], Selection([], []), {});
  }

  /** Such a case: a hub that offers nothing, no role given, and a blob that sets one. */
  const STRAY_ROLE: Json := Obj(map["leader" := Obj(map["disagg" := Obj(map["role" := Str("decode")])])])

  lemma StrayTuned(hub: Hub, opts: Options, parse: Parser, extra: Json, text: string)
    requires hub.baseConfig.Null? && parse(text) == Some(STRAY_ROLE) && opts == Options([], None, [], Some(text))
    ensures Get(Tuned(hub, opts, parse, extra), ROLE_PATH) == Some(Str("decode"))
  {
    GetThree(STRAY_ROLE, "leader", "disagg", "role");
    MergedLeaf(extra, STRAY_ROLE, ROLE_PATH, Str("decode"));
  }

  lemma StrayRole(hub: Hub, url: string, parse: Parser, text: string)
    requires hub.features == [] && hub.baseConfig.Null? && parse(text) == Some(STRAY_ROLE)
    ensures exists out: Rendered ::
              && IsRendered(hub, url, Options([], None, [], Some(text)), parse, out)
              && ConditionalDisagg !in out.effective && Get(out.config, ROLE_PATH) == Some(Str("decode"))
  {
    var opts := Options([], None, [], Some(text));
    NothingOffered(hub, opts);
    var extra := BuildExtraConfig(hub.primary, [], url, None).value;
    var tuned := Tuned(hub, opts, parse, extra);
    StrayTuned(hub, opts, parse, extra, text);
    var out := Rendered([], Merged(tuned, AuthoritativeOverlay(hub.primary, [], url, None)));
    assert IsRendered(hub, url, opts, parse, out);
    RoleFree([], None);
    OverlayLeavesFree(hub.primary, [], url, None, tuned, ROLE_PATH);
  }

  /** The path leads to a value that is no object. */
  predicate ReadsLeaf(j: Json, path: Path) {
    Get(j, path).Some? && !Get(j, path).value.Obj?
  }

  /** Where no override reaches, the connector's blob wins over the hub's base configuration, and
      that over what was built. */
  lemma TuningPrecedence(hub: Hub, opts: Options, parse: Parser, extra: Json, path: Path)
    requires Tunable(opts, parse) && forall raw <- opts.overrides :: Diverge(PathOf(raw), path)
    ensures var tuned := Get(Tuned(hub, opts, parse, extra), path);
            var blob := if opts.config.Some? then parse(opts.config.value).value else Obj(map[]);
            && (ReadsLeaf(blob, path) ==> tuned == Get(blob, path))
            && (Silent(blob, path) && path != [] && ReadsLeaf(hub.baseConfig, path) ==>
                  tuned == Get(hub.baseConfig, path))
            && (Silent(blob, path) && (hub.baseConfig.Null? || Silent(hub.baseConfig, path)) ==>
              tuned == Get(extra, path))
  {
    var based := if hub.baseConfig.Null? then extra else Merged(extra, hub.baseConfig);
    LaterOverridesKeep(parse, WithBlob(parse, based, opts.config), opts.overrides, path);
    MergedGet(extra, hub.baseConfig, path);
    if opts.config.Some? {
      MergedGet(based, parse(opts.config.value).value, path);
    }
  }
}
