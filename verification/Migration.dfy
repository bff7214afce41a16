/** Turning legacy routing rules into pools and routes, and the check that keeps the two apart. */
module Migration {
  import opened Wrappers
  import opened ConfigTypes
  import opened Routing
  import opened Seqs
  import opened Text
  import PoolIds
  import Ring
  import RoundRobin

  predicate HasBinding(lb: LoadBalancerConfig) {
    Trim(lb.defaultPoolId) != "" || |lb.pools| > 0 || |lb.routes| > 0
  }

  predicate HasLegacy(routing: RoutingConfig) {
    Trim(routing.defaultUpstream) != "" || |routing.domains| > 0
  }

  // Migration

  datatype Migrated = Migrated(pools: seq<LbPool>, routes: seq<LbRouteRule>, used: set<string>)

  const NAME_PREFIX := "\U{8FC1}\U{79FB}\U{6C60}_"

  function MigratedPool(id: string, suffix: string, upstream: string): LbPool {
    LbPool(id, NAME_PREFIX + suffix, "weighted_rr", [LbNode("node_primary", upstream, 1, true)])
  }

  predicate Migrates(rule: DomainRule) {
    NormalizeHost(rule.domain) != "" && Trim(rule.upstream) != ""
  }

  function MigrateRule(m: Migrated, rule: DomainRule): Migrated {
    if !Migrates(rule) then m
    else
      var domain := NormalizeHost(rule.domain);
      var id := PoolIds.MigratedId(domain, m.used);
      Migrated(m.pools + [MigratedPool(id, domain, Trim(rule.upstream))],
               m.routes + [LbRouteRule(rule.domain, id, "", rule.forceHttps)],
               m.used + {id})
  }

  function MigrateRules(m: Migrated, rules: seq<DomainRule>): Migrated {
    if rules == [] then m else MigrateRule(MigrateRules(m, rules[..|rules| - 1]), rules[|rules| - 1])
  }

  function UsedIds(pools: seq<LbPool>): set<string> {
    set pool <- pools | Trim(pool.id) != "" :: Trim(pool.id)
  }

  function MigrateDefault(m: Migrated, lb: LoadBalancerConfig, upstream: string): LoadBalancerConfig {
    if upstream == "" then LoadBalancerConfig(lb.defaultPoolId, m.pools, m.routes)
    else
      var id := PoolIds.MigratedId("default", m.used);
      LoadBalancerConfig(id, m.pools + [MigratedPool(id, "default", upstream)], m.routes)
  }

  function Migrate(routing: RoutingConfig, lb: LoadBalancerConfig): LoadBalancerConfig {
    var m := MigrateRules(Migrated(lb.pools, lb.routes, UsedIds(lb.pools)), routing.domains);
    MigrateDefault(m, lb, Trim(routing.defaultUpstream))
  }

  method MigrateRoutingToLoadBalancer(routing: RoutingConfig, lb: LoadBalancerConfig) returns (r: LoadBalancerConfig)
    ensures r == Migrate(routing, lb)
  {
    hide Trim, NormalizeHost, PoolIds.MigratedId;
    var usedPoolId: set<string> := {};
    for n := 0 to |lb.pools|
      invariant usedPoolId == UsedIds(lb.pools[..n])
    {
      TakeSnoc(lb.pools, n);
      var poolId := Trim(lb.pools[n].id);
      if poolId != "" {
        usedPoolId := usedPoolId + {poolId};
      }
    }
    TakeAll(lb.pools);
    ghost var start := Migrated(lb.pools, lb.routes, usedPoolId);
    var pools, routes := lb.pools, lb.routes;
    for n := 0 to |routing.domains|
      invariant Migrated(pools, routes, usedPoolId) == MigrateRules(start, routing.domains[..n])
    {
      TakeSnoc(routing.domains, n);
      FrontOfSnoc(routing.domains[..n], routing.domains[n]);
      var item := routing.domains[n];
      var domain, upstream := NormalizeHost(item.domain), Trim(item.upstream);
      if domain == "" || upstream == "" {
        continue;
      }
      var poolId;
      poolId, usedPoolId := PoolIds.BuildMigratedPoolId(domain, usedPoolId);
      pools := pools + [MigratedPool(poolId, domain, upstream)];
      routes := routes + [LbRouteRule(item.domain, poolId, "", item.forceHttps)];
    }
    TakeAll(routing.domains);
    var defaultPoolId := lb.defaultPoolId;
    var defaultUpstream := Trim(routing.defaultUpstream);
    if defaultUpstream != "" {
      var poolId;
      poolId, usedPoolId := PoolIds.BuildMigratedPoolId("default", usedPoolId);
      pools := pools + [MigratedPool(poolId, "default", defaultUpstream)];
      defaultPoolId := poolId;
    }
    r := LoadBalancerConfig(defaultPoolId, pools, routes);
  }

  // What migration produces, rule by rule.

  /** Pools and routes line up with the rules that migrate, under pairwise distinct identifiers. */
  ghost predicate LinesUp(m: Migrated, kept: seq<DomainRule>) {
    && |m.pools| == |m.routes| == |kept|
    && (forall i :: 0 <= i < |kept| ==> Aligned(m.pools[i], m.routes[i], kept[i]))
    && DistinctIds(m.pools)
    && (forall pool <- m.pools :: pool.id in m.used)
  }

  ghost predicate Aligned(pool: LbPool, route: LbRouteRule, rule: DomainRule) {
    && pool == MigratedPool(pool.id, NormalizeHost(rule.domain), Trim(rule.upstream))
    && pool.id != "" && Trim(pool.id) == pool.id
    && route == LbRouteRule(rule.domain, pool.id, "", rule.forceHttps)
  }

  ghost predicate DistinctIds(pools: seq<LbPool>) {
    forall i, j :: 0 <= i < j < |pools| ==> pools[i].id != pools[j].id
  }

  function Kept(rules: seq<DomainRule>): seq<DomainRule> {
    Filter(rules, Migrates)
  }

  const NOTHING := Migrated([], [], {})

  lemma {:induction false} MigrationLinesUp(rules: seq<DomainRule>)
    ensures LinesUp(MigrateRules(NOTHING, rules), Kept(rules))
  {
    hide Trim, NormalizeHost, PoolIds.MigratedId, Migrates;
    if rules != [] {
      var k := |rules| - 1;
      MigrationLinesUp(rules[..k]);
      var m, rule := MigrateRules(NOTHING, rules[..k]), rules[k];
      if Migrates(rule) {
        RuleLinesUp(m, Kept(rules[..k]), rule);
      } else {
        assert Kept(rules) == Kept(rules[..k]);
      }
    }
  }

  lemma RuleLinesUp(m: Migrated, kept: seq<DomainRule>, rule: DomainRule)
    requires LinesUp(m, kept) && Migrates(rule)
    ensures LinesUp(MigrateRule(m, rule), kept + [rule])
  {
    var domain := NormalizeHost(rule.domain);
    PoolIds.MigratedIdIsBare(domain, m.used);
    hide Trim, NormalizeHost;
    var id := PoolIds.MigratedId(domain, m.used);
    assert id !in m.used;
    hide PoolIds.MigratedId;
    var pool := MigratedPool(id, domain, Trim(rule.upstream));
    assert MigrateRule(m, rule).pools == m.pools + [pool];
    assert forall i :: 0 <= i < |m.pools| ==> m.pools[i] in m.pools;
  }

  /** With distinct identifiers the last definition of an identifier is its only one. */
  lemma {:induction false} OnlyPool(pools: seq<LbPool>, i: nat)
    requires i < |pools| && DistinctIds(pools)
    requires forall pool <- pools :: Trim(pool.id) == pool.id
    ensures LastPool(pools, pools[i].id) == i
  {
    hide Trim;
    LastIndexIsLast(pools, HasId(pools[i].id));
    assert pools[i] in pools && HasId(pools[i].id)(pools[i]);
    var l := LastPool(pools, pools[i].id);
    assert l >= i && pools[l] in pools;
  }

  // Migration preserves meaning.

  predicate Named(rule: DomainRule) {
    NormalizeHost(rule.domain) != ""
  }

  /** Blank text is no upstream, and surrounding blanks do not change what the default upstream and those of
      rules with a domain parse to. */
  ghost predicate TrimSafe(parse: UrlParser, routing: RoutingConfig) {
    && parse("") == None
    && parse(Trim(routing.defaultUpstream)) == parse(routing.defaultUpstream)
    && (forall rule <- routing.domains :: Named(rule) ==> parse(Trim(rule.upstream)) == parse(rule.upstream))
  }

  /** Whatever its counter reads, the pool sends every draw to this target. */
  ghost predicate AlwaysTo(parse: UrlParser, lb: LoadBalancerConfig, poolId: string, target: Url) {
    var i := LastPool(lb.pools, poolId);
    && 0 <= i < |lb.pools|
    && Ring.UpstreamsParse(parse, lb.pools[i].nodes)
    && var t := Ring.CompiledPoolOf(parse, lb.pools[i]);
       && t.ring != []
       && (forall drawn: nat :: t.nodes[RoundRobin.Slot(t.ring, drawn)].target == target)
  }

  /** The same route on every lookup; only the default's label may differ. */
  ghost predicate SameRoute(parse: UrlParser, lb: LoadBalancerConfig, before: Answer, after: Answer) {
    match before
    case Fixed(m) =>
      && after.FromPool?
      && (after.domain == m.domain || (m.domain == DEFAULT_LABEL && after.domain == LB_DEFAULT_LABEL))
      && after.forceHttps == m.forceHttps
      && AlwaysTo(parse, lb, after.poolId, m.target)
    case NoAnswer => after == NoAnswer
    case FromPool(_, _, _) => false
  }

  lemma SingleNodePool(parse: UrlParser, id: string, suffix: string, upstream: string, drawn: nat)
    requires parse(Trim(upstream)).Some?
    ensures var pool := MigratedPool(id, suffix, upstream);
            && Ring.UpstreamsParse(parse, pool.nodes)
            && var t := Ring.CompiledPoolOf(parse, pool);
               t.ring != [] && t.nodes[RoundRobin.Slot(t.ring, drawn)].target == parse(Trim(upstream)).value
  {
    hide Trim;
    var pool := MigratedPool(id, suffix, upstream);
    var node := pool.nodes[0];
    assert pool.nodes == [] + [node];
    Ring.RingSnoc([], node);
    Ring.NodesSnoc(parse, [], node);
    assert Ring.RingOf([]) == [];
    assert Ring.RingOf(pool.nodes) == [0];
    assert Ring.CompiledNodes(parse, pool.nodes) == [Ring.CompileNode(parse, node)];
    assert RoundRobin.Slot([0], drawn) in [0];
  }

  /** The i-th pool of a migrated balancer is in service and always sends to its one upstream. */
  lemma MigratedPoolServes(parse: UrlParser, lb: LoadBalancerConfig, i: nat, suffix: string, upstream: string)
    requires i < |lb.pools| && DistinctIds(lb.pools)
    requires forall pool <- lb.pools :: Trim(pool.id) == pool.id
    requires lb.pools[i].id != "" && lb.pools[i] == MigratedPool(lb.pools[i].id, suffix, Trim(upstream))
    requires parse(Trim(upstream)).Some?
    ensures Available(lb, lb.pools[i].id)
    ensures AlwaysTo(parse, lb, lb.pools[i].id, parse(Trim(upstream)).value)
  {
    OnlyPool(lb.pools, i);
    TrimIdempotent(upstream);
    hide Trim;
    var id := lb.pools[i].id;
    assert lb.pools[i] in lb.pools;
    assert lb.pools[i].nodes[0] in lb.pools[i].nodes;
    SingleNodePool(parse, id, suffix, Trim(upstream), 0);
    var t := Ring.CompiledPoolOf(parse, lb.pools[i]);
    forall drawn: nat ensures t.nodes[RoundRobin.Slot(t.ring, drawn)].target == parse(Trim(upstream)).value {
      SingleNodePool(parse, id, suffix, Trim(upstream), drawn);
    }
  }

  /** What a migrated balancer looks like next to the rules it came from. */
  ghost predicate Mirrors(lb: LoadBalancerConfig, routing: RoutingConfig) {
    var kept := Kept(routing.domains);
    && |lb.routes| == |kept| <= |lb.pools|
    && (forall i :: 0 <= i < |kept| ==> Aligned(lb.pools[i], lb.routes[i], kept[i]))
    && DistinctIds(lb.pools)
    && (forall pool <- lb.pools :: Trim(pool.id) == pool.id)
    && (if Trim(routing.defaultUpstream) == "" then |lb.pools| == |kept| && Trim(lb.defaultPoolId) == ""
        else && |lb.pools| == |kept| + 1
             && var last := lb.pools[|kept|];
                && last.id != "" && lb.defaultPoolId == last.id
                && last == MigratedPool(last.id, "default", Trim(routing.defaultUpstream)))
  }

  lemma AlignedIdsAreBare(m: Migrated, kept: seq<DomainRule>)
    requires LinesUp(m, kept)
    ensures forall pool <- m.pools :: Trim(pool.id) == pool.id
  {
    hide Trim, NormalizeHost;
    assert forall i :: 0 <= i < |m.pools| ==> Aligned(m.pools[i], m.routes[i], kept[i]);
  }

  lemma OnePoolMore(m: Migrated, kept: seq<DomainRule>, pool: LbPool)
    requires LinesUp(m, kept) && pool.id !in m.used && Trim(pool.id) == pool.id
    ensures DistinctIds(m.pools + [pool])
    ensures forall p <- m.pools + [pool] :: Trim(p.id) == p.id
    ensures forall i :: 0 <= i < |kept| ==> Aligned((m.pools + [pool])[i], m.routes[i], kept[i])
  {
    AlignedIdsAreBare(m, kept);
    hide Trim, NormalizeHost, Aligned;
    assert forall i :: 0 <= i < |m.pools| ==> m.pools[i] in m.pools;
  }

  lemma DefaultMirrors(m: Migrated, lb: LoadBalancerConfig, routing: RoutingConfig)
    requires LinesUp(m, Kept(routing.domains)) && Trim(lb.defaultPoolId) == ""
    ensures Mirrors(MigrateDefault(m, lb, Trim(routing.defaultUpstream)), routing)
  {
    var upstream := Trim(routing.defaultUpstream);
    AlignedIdsAreBare(m, Kept(routing.domains));
    hide Trim, Kept, Aligned;
    if upstream != "" {
      var id := PoolIds.MigratedId("default", m.used);
      PoolIds.MigratedIdIsBare("default", m.used);
      assert id !in m.used;
      hide PoolIds.MigratedId;
      OnePoolMore(m, Kept(routing.domains), MigratedPool(id, "default", upstream));
    }
  }

  lemma MigrationMirrors(routing: RoutingConfig, lb: LoadBalancerConfig)
    requires !HasBinding(lb)
    ensures Mirrors(Migrate(routing, lb), routing)
  {
    assert lb.pools == [] && lb.routes == [] && UsedIds([]) == {};
    hide Trim, Mirrors, MigrateRules, MigrateDefault;
    MigrationLinesUp(routing.domains);
    DefaultMirrors(MigrateRules(NOTHING, routing.domains), lb, routing);
  }

  /** Each route of a migrated balancer is served by the pool made from its own rule. */
  lemma RouteServes(parse: UrlParser, routing: RoutingConfig, lb: LoadBalancerConfig, i: nat)
    requires Mirrors(lb, routing) && i < |lb.routes|
    requires TrimSafe(parse, routing) && RulesParse(parse, routing.domains)
    ensures i < |Kept(routing.domains)| && Kept(routing.domains)[i] in routing.domains
    ensures var rule := Kept(routing.domains)[i];
            && Serves(lb, lb.routes[i])
            && BoundTo(lb, lb.routes[i]) == FromPool(NormalizeHost(rule.domain), rule.forceHttps, lb.pools[i].id)
            && AlwaysTo(parse, lb, lb.pools[i].id, parse(rule.upstream).value)
  {
    var kept := Kept(routing.domains);
    FilterKeeps(routing.domains, Migrates);
    assert kept[i] in kept;
    hide Trim, NormalizeHost, AlwaysTo;
    var rule := kept[i];
    assert Aligned(lb.pools[i], lb.routes[i], rule);
    MigratedPoolServes(parse, lb, i, NormalizeHost(rule.domain), rule.upstream);
  }

  lemma DefaultServes(parse: UrlParser, routing: RoutingConfig, lb: LoadBalancerConfig)
    requires Mirrors(lb, routing) && TrimSafe(parse, routing)
    requires routing.defaultUpstream != "" ==> parse(routing.defaultUpstream).Some?
    ensures routing.defaultUpstream == "" <==> Trim(routing.defaultUpstream) == ""
    ensures Available(lb, lb.defaultPoolId) <==> routing.defaultUpstream != ""
    ensures routing.defaultUpstream != "" ==>
              AlwaysTo(parse, lb, Trim(lb.defaultPoolId), parse(routing.defaultUpstream).value)
  {
    assert Trim("") == "";
    hide Trim, AlwaysTo;
    if routing.defaultUpstream != "" {
      var i := |Kept(routing.domains)|;
      assert lb.pools[i] in lb.pools;
      MigratedPoolServes(parse, lb, i, "default", routing.defaultUpstream);
    }
  }

  /** The rules that answer a host find their migrated routes at the same place in line. */
  lemma RulesFoundAlike(parse: UrlParser, routing: RoutingConfig, lb: LoadBalancerConfig, host: string)
    requires Mirrors(lb, routing) && TrimSafe(parse, routing) && RulesParse(parse, routing.domains)
    requires host != ""
    ensures var rules, kept := routing.domains, Kept(routing.domains);
            var e, e' := LastIndex(rules, LegacyRuleFor([], host)), LastIndex(lb.routes, ExactRuleFor(host));
            && (e >= 0 <==> e' >= 0)
            && (e >= 0 ==> e' < |kept| && rules[e] == kept[e'])
    ensures var rules, kept := routing.domains, Kept(routing.domains);
            var w, w' := FirstIndex(rules, LegacyWildcardFor([], host)), FirstIndex(lb.routes, WildcardRuleFor(lb, host));
            && (w >= 0 <==> w' >= 0)
            && (w >= 0 ==> w' < |kept| && rules[w] == kept[w'])
  {
    hide NormalizeHost, Trim, AlwaysTo, Serves, TrimSafe, Mirrors, RulesParse, LastIndex, FirstIndex;
    var rules, kept := routing.domains, Kept(routing.domains);
    MatchesMigrate(parse, routing, host);
    LastAmongKept(rules, Migrates, LegacyRuleFor([], host));
    FirstAmongKept(rules, Migrates, LegacyWildcardFor([], host));
    MirrorsCount(lb, routing);
    forall i | 0 <= i < |kept|
      ensures LegacyRuleFor([], host)(kept[i]) == ExactRuleFor(host)(lb.routes[i])
      ensures LegacyWildcardFor([], host)(kept[i]) == WildcardRuleFor(lb, host)(lb.routes[i])
    {
      RouteMatchesAlike(parse, routing, lb, host, i);
    }
    hide LegacyRuleFor, LegacyWildcardFor, ExactRuleFor, WildcardRuleFor, Migrates, Kept;
    FoundAlike(kept, LegacyRuleFor([], host), lb.routes, ExactRuleFor(host));
    FoundAlike(kept, LegacyWildcardFor([], host), lb.routes, WildcardRuleFor(lb, host));
  }

  lemma MirrorsCount(lb: LoadBalancerConfig, routing: RoutingConfig)
    requires Mirrors(lb, routing)
    ensures |lb.routes| == |Kept(routing.domains)| <= |lb.pools|
  {
    hide Trim, Kept, Aligned;
  }

  /** The rules that can answer a host all migrate. */
  lemma MatchesMigrate(parse: UrlParser, routing: RoutingConfig, host: string)
    requires TrimSafe(parse, routing) && RulesParse(parse, routing.domains) && host != ""
    ensures forall rule <- routing.domains :: LegacyRuleFor([], host)(rule) || LegacyWildcardFor([], host)(rule) ==> Migrates(rule)
  {
    hide Trim, NormalizeHost, TakenOver;
    forall rule | rule in routing.domains && (LegacyRuleFor([], host)(rule) || LegacyWildcardFor([], host)(rule))
      ensures Migrates(rule)
    {
      assert Named(rule);
      assert parse(Trim(rule.upstream)).Some?;
    }
  }

  lemma RouteMatchesAlike(parse: UrlParser, routing: RoutingConfig, lb: LoadBalancerConfig, host: string, i: nat)
    requires Mirrors(lb, routing) && TrimSafe(parse, routing) && RulesParse(parse, routing.domains) && host != ""
    requires i < |Kept(routing.domains)|
    ensures i < |lb.routes|
    ensures LegacyRuleFor([], host)(Kept(routing.domains)[i]) == ExactRuleFor(host)(lb.routes[i])
    ensures LegacyWildcardFor([], host)(Kept(routing.domains)[i]) == WildcardRuleFor(lb, host)(lb.routes[i])
  {
    RouteServes(parse, routing, lb, i);
    assert lb.routes[i].domain == Kept(routing.domains)[i].domain by {
      hide Trim, NormalizeHost, Kept;
      assert Aligned(lb.pools[i], lb.routes[i], Kept(routing.domains)[i]);
    }
    assert !TakenOver([], host) && !TakenOver([], NormalizeHost(lb.routes[i].domain));
    hide Trim, NormalizeHost, AlwaysTo, Serves, TrimSafe, Mirrors, RulesParse, Kept, TakenOver, HasSuffix;
  }

  /** What migrates still parses once the blanks around it are gone. */
  predicate MigratingParse(parse: UrlParser, routing: RoutingConfig) {
    && (forall rule <- routing.domains :: Migrates(rule) ==> parse(Trim(rule.upstream)).Some?)
    && (Trim(routing.defaultUpstream) != "" ==> parse(Trim(routing.defaultUpstream)).Some?)
  }

  lemma MigratedPoolParsesIff(parse: UrlParser, id: string, suffix: string, upstream: string)
    ensures Ring.UpstreamsParse(parse, MigratedPool(id, suffix, Trim(upstream)).nodes) <==> parse(Trim(upstream)).Some?
  {
    TrimIdempotent(upstream);
    hide Trim;
    var nodes := MigratedPool(id, suffix, Trim(upstream)).nodes;
    assert nodes[0] in nodes;
  }

  /** The pools of a migrated balancer parse one by one as their rules do. */
  lemma MirroredPoolParsesIff(parse: UrlParser, routing: RoutingConfig, lb: LoadBalancerConfig, i: nat)
    requires Mirrors(lb, routing) && i < |lb.pools|
    ensures Trim(lb.pools[i].id) != ""
    ensures Ring.UpstreamsParse(parse, lb.pools[i].nodes)
            <==> parse(Trim(UpstreamAt(routing, i))).Some?
    ensures i >= |Kept(routing.domains)| ==> Trim(routing.defaultUpstream) != ""
  {
    var kept := Kept(routing.domains);
    hide Trim, NormalizeHost, Kept;
    assert lb.pools[i] in lb.pools;
    if i < |kept| {
      assert Aligned(lb.pools[i], lb.routes[i], kept[i]);
      MigratedPoolParsesIff(parse, lb.pools[i].id, NormalizeHost(kept[i].domain), kept[i].upstream);
    } else {
      MigratedPoolParsesIff(parse, lb.pools[i].id, "default", routing.defaultUpstream);
    }
  }

  /** The migrated configuration of an unbound balancer builds exactly when what migrates parses once trimmed. */
  lemma MigratedBuildsIff(parse: UrlParser, routing: RoutingConfig, lb: LoadBalancerConfig)
    requires !HasBinding(lb)
    ensures Builds(parse, Config(EMPTY_ROUTING, Migrate(routing, lb))) <==> MigratingParse(parse, routing)
  {
    MigrationMirrors(routing, lb);
    hide Migrate, HasBinding;
    MirroredBuildsIff(parse, routing, Migrate(routing, lb));
  }

  lemma MirroredBuildsIff(parse: UrlParser, routing: RoutingConfig, lb: LoadBalancerConfig)
    requires Mirrors(lb, routing)
    ensures Builds(parse, Config(EMPTY_ROUTING, lb)) <==> MigratingParse(parse, routing)
  {
    var kept, pools := Kept(routing.domains), lb.pools;
    MirrorsCount(lb, routing);
    MirroredPools(lb, routing);
    forall i | 0 <= i < |pools|
      ensures Trim(pools[i].id) != ""
      ensures Ring.UpstreamsParse(parse, pools[i].nodes) <==> parse(Trim(UpstreamAt(routing, i))).Some?
    {
      MirroredPoolParsesIff(parse, routing, lb, i);
    }
    hide Trim, Mirrors, Ring.UpstreamsParse, Kept, Migrates, UpstreamAt, MigratingParse;
    assert Builds(parse, Config(EMPTY_ROUTING, lb)) <==> forall i :: 0 <= i < |pools| ==> parse(Trim(UpstreamAt(routing, i))).Some? by {
      assert Trim("") == "" && RulesParse(parse, []);
      PoolsParseOneByOne(parse, pools);
    }
    UpstreamsOneByOne(parse, routing, |pools|);
  }

  /** The upstream that the i-th pool of the migrated balancer was made from. */
  function UpstreamAt(routing: RoutingConfig, i: nat): string {
    if i < |Kept(routing.domains)| then Kept(routing.domains)[i].upstream else routing.defaultUpstream
  }

  lemma MirroredPools(lb: LoadBalancerConfig, routing: RoutingConfig)
    requires Mirrors(lb, routing)
    ensures |lb.pools| == |Kept(routing.domains)| + if Trim(routing.defaultUpstream) == "" then 0 else 1
  {
    hide Trim, Kept, Aligned;
  }

  lemma PoolsParseOneByOne(parse: UrlParser, pools: seq<LbPool>)
    requires forall i :: 0 <= i < |pools| ==> Trim(pools[i].id) != ""
    ensures PoolsParse(parse, pools) <==> forall i :: 0 <= i < |pools| ==> Ring.UpstreamsParse(parse, pools[i].nodes)
  {
    hide Trim, Ring.UpstreamsParse;
    assert forall i :: 0 <= i < |pools| ==> pools[i] in pools;
  }

  lemma UpstreamsOneByOne(parse: UrlParser, routing: RoutingConfig, n: nat)
    requires n == |Kept(routing.domains)| + if Trim(routing.defaultUpstream) == "" then 0 else 1
    ensures MigratingParse(parse, routing) <==> forall i :: 0 <= i < n ==> parse(Trim(UpstreamAt(routing, i))).Some?
  {
    var kept := Kept(routing.domains);
    FilterKeeps(routing.domains, Migrates);
    hide Trim, Migrates, Filter;
    assert forall i :: 0 <= i < |kept| ==> UpstreamAt(routing, i) == kept[i].upstream && kept[i] in kept;
    assert UpstreamAt(routing, |kept|) == routing.defaultUpstream;
    if forall i :: 0 <= i < n ==> parse(Trim(UpstreamAt(routing, i))).Some? {
      forall rule | rule in routing.domains && Migrates(rule) ensures parse(Trim(rule.upstream)).Some? {
        var i :| 0 <= i < |kept| && kept[i] == rule;
        assert parse(Trim(UpstreamAt(routing, i))).Some?;
      }
      if Trim(routing.defaultUpstream) != "" {
        assert parse(Trim(UpstreamAt(routing, |kept|))).Some?;
      }
    }
  }

  lemma SafeParses(parse: UrlParser, routing: RoutingConfig, lb: LoadBalancerConfig)
    requires TrimSafe(parse, routing) && Builds(parse, Config(routing, lb)) && !HasBinding(lb)
    ensures MigratingParse(parse, routing)
  {
    assert Trim("") == "";
    hide Trim, NormalizeHost;
  }

  lemma UnboundAnswersNothing(lb: LoadBalancerConfig, host: string)
    requires !HasBinding(lb)
    ensures LbAnswer(lb, host) == NoAnswer
  {
    hide Trim;
  }

  lemma HostAnsweredAlike(parse: UrlParser, routing: RoutingConfig, lb: LoadBalancerConfig, lb': LoadBalancerConfig,
                          host: string)
    requires !HasBinding(lb) && Mirrors(lb', routing) && TrimSafe(parse, routing)
    requires Builds(parse, Config(routing, lb)) && Builds(parse, Config(EMPTY_ROUTING, lb'))
    requires host != ""
    ensures SameRoute(parse, lb', DirectAnswer(parse, Config(routing, lb), host),
                      DirectAnswer(parse, Config(EMPTY_ROUTING, lb'), host))
  {
    hide NormalizeHost, Trim, AlwaysTo, Mirrors, PoolsParse, TrimSafe, Available, Serves;
    var rules := routing.domains;
    UnboundAnswersNothing(lb, host);
    assert lb.routes == [] && Trim(lb.defaultPoolId) == "";
    RulesFoundAlike(parse, routing, lb', host);
    DefaultServes(parse, routing, lb');
    var e, w := LastIndex(rules, LegacyRuleFor([], host)), FirstIndex(rules, LegacyWildcardFor([], host));
    if e >= 0 {
      RouteServes(parse, routing, lb', LastIndex(lb'.routes, ExactRuleFor(host)));
    } else if w >= 0 {
      RouteServes(parse, routing, lb', FirstIndex(lb'.routes, WildcardRuleFor(lb', host)));
    }
  }

  /** The empty host: only a rule whose domain normalises to nothing answers it ahead of the default. */
  lemma EmptyHostAnswered(parse: UrlParser, routing: RoutingConfig, lb: LoadBalancerConfig, lb': LoadBalancerConfig)
    requires !HasBinding(lb) && Mirrors(lb', routing) && TrimSafe(parse, routing)
    requires Builds(parse, Config(routing, lb)) && Builds(parse, Config(EMPTY_ROUTING, lb'))
    ensures SameRoute(parse, lb', DirectAnswer(parse, Config(routing, lb), ""),
                      DirectAnswer(parse, Config(EMPTY_ROUTING, lb'), ""))
       <==> forall rule <- routing.domains :: NormalizeHost(rule.domain) != ""
  {
    hide NormalizeHost, Trim, AlwaysTo, Mirrors, PoolsParse, TrimSafe, Available, Serves;
    var rules := routing.domains;
    UnboundAnswersNothing(lb, "");
    assert lb.routes == [] && Trim(lb.defaultPoolId) == "";
    DefaultServes(parse, routing, lb');
    LastIndexIsLast(rules, LegacyRuleFor([], ""));
    FirstIndexIsFirst(rules, LegacyWildcardFor([], ""));
    LastIndexIsLast(lb'.routes, ExactRuleFor(""));
    FirstIndexIsFirst(lb'.routes, WildcardRuleFor(lb', ""));
    assert forall rule <- rules :: NormalizeHost(rule.domain) == "" <==> LegacyRuleFor([], "")(rule);
  }

  /** Where trimming changes no upstream, the migrated configuration builds, every non-empty host is answered
      exactly as before whatever the counters read, and the empty host is too just when no legacy
      domain normalises to nothing. */
  lemma TrimmedMigration(parse: UrlParser, routing: RoutingConfig, lb: LoadBalancerConfig)
    requires !HasBinding(lb) && TrimSafe(parse, routing)
    requires Builds(parse, Config(routing, lb))
    ensures Builds(parse, Config(EMPTY_ROUTING, Migrate(routing, lb)))
    ensures forall host: string :: host != "" ==>
              SameRoute(parse, Migrate(routing, lb), DirectAnswer(parse, Config(routing, lb), host),
                        DirectAnswer(parse, Config(EMPTY_ROUTING, Migrate(routing, lb)), host))
    ensures SameRoute(parse, Migrate(routing, lb), DirectAnswer(parse, Config(routing, lb), ""),
                      DirectAnswer(parse, Config(EMPTY_ROUTING, Migrate(routing, lb)), ""))
       <==> forall rule <- routing.domains :: NormalizeHost(rule.domain) != ""
  {
    var lb' := Migrate(routing, lb);
    MigrationMirrors(routing, lb);
    hide NormalizeHost, AlwaysTo, Mirrors, PoolsParse, TrimSafe, Migrate, DirectAnswer, SameRoute;
    assert Trim(lb.defaultPoolId) == "";
    MigratedBuildsIff(parse, routing, lb);
    assert MigratingParse(parse, routing) by { SafeParses(parse, routing, lb); }
    forall host: string | host != ""
      ensures SameRoute(parse, lb', DirectAnswer(parse, Config(routing, lb), host),
                        DirectAnswer(parse, Config(EMPTY_ROUTING, lb'), host))
    {
      HostAnsweredAlike(parse, routing, lb, lb', host);
    }
    EmptyHostAnswered(parse, routing, lb, lb');
  }

  // Upstreams with blanks around them

  /** Blank text has no scheme. */
  ghost predicate BlankIsNoUpstream(parse: UrlParser) {
    forall text: string :: Trim(text) == "" ==> parse(text).None?
  }

  function TrimmedRule(rule: DomainRule): DomainRule {
    if Named(rule) then rule.(upstream := Trim(rule.upstream)) else rule
  }

  function TrimmedRules(rules: seq<DomainRule>): seq<DomainRule> {
    seq(|rules|, i requires 0 <= i < |rules| => TrimmedRule(rules[i]))
  }

  /** The same rules, with the blanks around every upstream that can migrate gone. */
  function TrimmedRouting(routing: RoutingConfig): RoutingConfig {
    RoutingConfig(Trim(routing.defaultUpstream), TrimmedRules(routing.domains))
  }

  lemma {:induction false} MigratesTrimmed(m: Migrated, rules: seq<DomainRule>)
    ensures MigrateRules(m, TrimmedRules(rules)) == MigrateRules(m, rules)
  {
    if rules != [] {
      var k := |rules| - 1;
      MigratesTrimmed(m, rules[..k]);
      TrimIdempotent(rules[k].upstream);
      assert TrimmedRules(rules)[..k] == TrimmedRules(rules[..k]);
      hide Trim, NormalizeHost, PoolIds.MigratedId;
    }
  }

  lemma MigratesAsTrimmed(routing: RoutingConfig, lb: LoadBalancerConfig)
    ensures Migrate(TrimmedRouting(routing), lb) == Migrate(routing, lb)
  {
    MigratesTrimmed(Migrated(lb.pools, lb.routes, UsedIds(lb.pools)), routing.domains);
    TrimIdempotent(routing.defaultUpstream);
    hide Trim, MigrateRules, MigrateDefault, TrimmedRules, UsedIds;
  }

  lemma TrimmedRulesParse(parse: UrlParser, rules: seq<DomainRule>)
    requires BlankIsNoUpstream(parse) && RulesParse(parse, rules)
    requires forall rule <- rules :: Migrates(rule) ==> parse(Trim(rule.upstream)).Some?
    ensures forall rule <- TrimmedRules(rules) ::
              parse(rule.upstream).Some? && (Named(rule) ==> parse(Trim(rule.upstream)) == parse(rule.upstream))
  {
    hide Trim, NormalizeHost;
    var trimmed := TrimmedRules(rules);
    forall i | 0 <= i < |trimmed|
      ensures parse(trimmed[i].upstream).Some? && (Named(trimmed[i]) ==> parse(Trim(trimmed[i].upstream)) == parse(trimmed[i].upstream))
    {
      TrimIdempotent(rules[i].upstream);
      assert rules[i] in rules && Trim(rules[i].upstream) != "";
    }
  }

  lemma TrimmedIsSafe(parse: UrlParser, routing: RoutingConfig, lb: LoadBalancerConfig)
    requires BlankIsNoUpstream(parse) && !HasBinding(lb) && Builds(parse, Config(routing, lb)) && MigratingParse(parse, routing)
    ensures TrimSafe(parse, TrimmedRouting(routing))
    ensures Builds(parse, Config(TrimmedRouting(routing), lb))
    ensures routing.defaultUpstream == "" <==> Trim(routing.defaultUpstream) == ""
  {
    TrimmedRulesParse(parse, routing.domains);
    TrimIdempotent(routing.defaultUpstream);
    assert Trim("") == "";
    hide Trim, TrimmedRules, PoolsParse, NormalizeHost;
  }

  /** The upstream that answers a host, by the legacy rules alone. */
  function AnsweringUpstream(routing: RoutingConfig, host: string): Option<string> {
    var e := LastIndex(routing.domains, LegacyRuleFor([], host));
    var w := FirstIndex(routing.domains, LegacyWildcardFor([], host));
    if e >= 0 then Some(routing.domains[e].upstream)
    else if w >= 0 then Some(routing.domains[w].upstream)
    else if routing.defaultUpstream != "" then Some(routing.defaultUpstream)
    else None
  }

  /** The blanks around the upstream that answers the host, if it has any, do not matter. */
  predicate TrimsAlike(parse: UrlParser, routing: RoutingConfig, host: string) {
    var upstream := AnsweringUpstream(routing, host);
    upstream.Some? ==> parse(Trim(upstream.value)) == parse(upstream.value)
  }

  /** The label and the HTTPS flag of that answer. */
  function AnsweringLabel(routing: RoutingConfig, host: string): (string, bool) {
    var e := LastIndex(routing.domains, LegacyRuleFor([], host));
    var w := FirstIndex(routing.domains, LegacyWildcardFor([], host));
    if e >= 0 then (NormalizeHost(routing.domains[e].domain), routing.domains[e].forceHttps)
    else if w >= 0 then (NormalizeHost(routing.domains[w].domain), routing.domains[w].forceHttps)
    else (DEFAULT_LABEL, false)
  }

  lemma LegacyRulesAnswer(parse: UrlParser, routing: RoutingConfig, lb: LoadBalancerConfig, host: string)
    requires !HasBinding(lb) && Builds(parse, Config(routing, lb))
    ensures var a, upstream, named := DirectAnswer(parse, Config(routing, lb), host), AnsweringUpstream(routing, host), AnsweringLabel(routing, host);
            && (upstream.None? ==> a == NoAnswer)
            && (upstream.Some? ==> parse(upstream.value).Some? && a == Fixed(RouteMatch(named.0, named.1, parse(upstream.value).value)))
  {
    UnboundAnswersNothing(lb, host);
    assert lb.routes == [] && Trim(lb.defaultPoolId) == "";
    hide NormalizeHost, Trim, PoolsParse, LbAnswer, LegacyRuleFor, LegacyWildcardFor;
  }

  /** No rule without a domain can answer the host. */
  predicate NamesMatter(routing: RoutingConfig, host: string) {
    host != "" || forall rule <- routing.domains :: Named(rule)
  }

  lemma AnswersAsTrimmed(routing: RoutingConfig, host: string)
    requires NamesMatter(routing, host)
    requires routing.defaultUpstream == "" <==> Trim(routing.defaultUpstream) == ""
    ensures AnsweringLabel(TrimmedRouting(routing), host) == AnsweringLabel(routing, host)
    ensures AnsweringUpstream(TrimmedRouting(routing), host)
         == (var upstream := AnsweringUpstream(routing, host); if upstream.Some? then Some(Trim(upstream.value)) else None)
  {
    var rules, trimmed := routing.domains, TrimmedRules(routing.domains);
    var e, w := LastIndex(rules, LegacyRuleFor([], host)), FirstIndex(rules, LegacyWildcardFor([], host));
    FoundAsTrimmed(rules, host);
    LastIndexIsLast(rules, LegacyRuleFor([], host));
    FirstIndexIsFirst(rules, LegacyWildcardFor([], host));
    assert e >= 0 ==> Named(rules[e]) by { hide Trim, TakenOver; }
    assert w >= 0 ==> Named(rules[w]) by { hide Trim, TakenOver; }
    hide NormalizeHost, Trim, TakenOver, LastIndex, FirstIndex, LegacyRuleFor, LegacyWildcardFor, Named;
  }

  lemma FoundAsTrimmed(rules: seq<DomainRule>, host: string)
    ensures LastIndex(TrimmedRules(rules), LegacyRuleFor([], host)) == LastIndex(rules, LegacyRuleFor([], host))
    ensures FirstIndex(TrimmedRules(rules), LegacyWildcardFor([], host)) == FirstIndex(rules, LegacyWildcardFor([], host))
  {
    hide NormalizeHost, Trim, TakenOver, Named;
    var trimmed := TrimmedRules(rules);
    assert forall i :: 0 <= i < |rules| ==> trimmed[i].domain == rules[i].domain;
    FoundAlike(rules, LegacyRuleFor([], host), trimmed, LegacyRuleFor([], host));
    FoundAlike(rules, LegacyWildcardFor([], host), trimmed, LegacyWildcardFor([], host));
  }

  /** Trimming the upstreams changes at most where an answer sends to. */
  lemma TrimmedAnswer(parse: UrlParser, routing: RoutingConfig, lb: LoadBalancerConfig, host: string)
    requires !HasBinding(lb) && BlankIsNoUpstream(parse) && MigratingParse(parse, routing) && NamesMatter(routing, host)
    requires Builds(parse, Config(routing, lb)) && Builds(parse, Config(TrimmedRouting(routing), lb))
    ensures var a, b := DirectAnswer(parse, Config(routing, lb), host), DirectAnswer(parse, Config(TrimmedRouting(routing), lb), host);
            && !a.FromPool? && (a.Fixed? <==> b.Fixed?)
            && (a.Fixed? ==> b.route == a.route.(target := b.route.target))
            && (a == b <==> TrimsAlike(parse, routing, host))
  {
    TrimmedIsSafe(parse, routing, lb);
    LegacyRulesAnswer(parse, routing, lb, host);
    LegacyRulesAnswer(parse, TrimmedRouting(routing), lb, host);
    AnswersAsTrimmed(routing, host);
    hide Trim, DirectAnswer, AnsweringUpstream, AnsweringLabel, Builds, HasBinding, TrimSafe, TrimmedRouting, BlankIsNoUpstream, NamesMatter;
  }

  lemma OneTarget(parse: UrlParser, lb: LoadBalancerConfig, poolId: string, s: Url, t: Url)
    requires AlwaysTo(parse, lb, poolId, s) && AlwaysTo(parse, lb, poolId, t)
    ensures s == t
  {
    hide LastPool, Ring.CompiledPoolOf, Ring.UpstreamsParse;
    var table := Ring.CompiledPoolOf(parse, lb.pools[LastPool(lb.pools, poolId)]);
    assert table.nodes[RoundRobin.Slot(table.ring, 0)].target == s;
  }

  /** Of two answers that differ at most in their target, the migrated balancer gives one at most. */
  lemma SameRouteIff(parse: UrlParser, lb: LoadBalancerConfig, a: Answer, b: Answer, after: Answer)
    requires SameRoute(parse, lb, b, after) && !a.FromPool? && (a.Fixed? <==> b.Fixed?)
    requires a.Fixed? ==> b.route == a.route.(target := b.route.target)
    ensures SameRoute(parse, lb, a, after) <==> a == b
  {
    hide AlwaysTo;
    if a.Fixed? && SameRoute(parse, lb, a, after) {
      OneTarget(parse, lb, after.poolId, a.route.target, b.route.target);
    }
  }

  lemma EmptyHostLabel(lb: LoadBalancerConfig)
    ensures LbAnswer(lb, "").FromPool? ==> LbAnswer(lb, "").domain == LB_DEFAULT_LABEL
  {
    LastIndexIsLast(lb.routes, ExactRuleFor(""));
    FirstIndexIsFirst(lb.routes, WildcardRuleFor(lb, ""));
    hide NormalizeHost, Trim, Serves, Available;
  }

  lemma EmptyHostLabels(parse: UrlParser, routing: RoutingConfig, lb: LoadBalancerConfig, lb': LoadBalancerConfig)
    requires !HasBinding(lb) && Builds(parse, Config(routing, lb)) && Builds(parse, Config(EMPTY_ROUTING, lb'))
    requires exists rule <- routing.domains :: NormalizeHost(rule.domain) == ""
    ensures !SameRoute(parse, lb', DirectAnswer(parse, Config(routing, lb), ""), DirectAnswer(parse, Config(EMPTY_ROUTING, lb'), ""))
  {
    BlankDomainAnswers(parse, routing, lb);
    EmptyHostLabel(lb');
    hide NormalizeHost, Trim, PoolsParse, AlwaysTo, LbAnswer;
  }

  lemma BlankDomainAnswers(parse: UrlParser, routing: RoutingConfig, lb: LoadBalancerConfig)
    requires !HasBinding(lb) && Builds(parse, Config(routing, lb))
    requires exists rule <- routing.domains :: NormalizeHost(rule.domain) == ""
    ensures DirectAnswer(parse, Config(routing, lb), "").Fixed? && DirectAnswer(parse, Config(routing, lb), "").route.domain == ""
  {
    UnboundAnswersNothing(lb, "");
    assert lb.routes == [];
    hide NormalizeHost, Trim, PoolsParse, AlwaysTo, LbAnswer;
    var rules := routing.domains;
    LastIndexIsLast(rules, LegacyRuleFor([], ""));
    var rule :| rule in rules && NormalizeHost(rule.domain) == "";
    assert LegacyRuleFor([], "")(rule);
    FoundIffPresent(rules, LegacyRuleFor([], ""));
  }

  /** Migration preserves meaning. The migrated configuration builds exactly when what migrates parses once
      trimmed. Then every non-empty host is answered as before, whatever the counters read, exactly when the
      blanks around the upstream that answers it do not matter; and so is the empty host, if besides no legacy
      domain normalises to nothing. */
  lemma MigrationPreservesMeaning(parse: UrlParser, routing: RoutingConfig, lb: LoadBalancerConfig)
    requires !HasBinding(lb) && BlankIsNoUpstream(parse)
    requires Builds(parse, Config(routing, lb))
    ensures Builds(parse, Config(EMPTY_ROUTING, Migrate(routing, lb))) <==> MigratingParse(parse, routing)
    ensures Builds(parse, Config(EMPTY_ROUTING, Migrate(routing, lb))) ==>
              && (forall host: string :: host != "" ==>
                    (SameRoute(parse, Migrate(routing, lb), DirectAnswer(parse, Config(routing, lb), host),
                               DirectAnswer(parse, Config(EMPTY_ROUTING, Migrate(routing, lb)), host))
                     <==> TrimsAlike(parse, routing, host)))
              && (SameRoute(parse, Migrate(routing, lb), DirectAnswer(parse, Config(routing, lb), ""),
                            DirectAnswer(parse, Config(EMPTY_ROUTING, Migrate(routing, lb)), ""))
                  <==> TrimsAlike(parse, routing, "") && forall rule <- routing.domains :: Named(rule))
  {
    var lb', trimmed := Migrate(routing, lb), TrimmedRouting(routing);
    MigratedBuildsIff(parse, routing, lb);
    if MigratingParse(parse, routing) {
      TrimmedIsSafe(parse, routing, lb);
      MigratesAsTrimmed(routing, lb);
      TrimmedMigration(parse, trimmed, lb);
      BlankDomainsTrimmed(routing);
      hide *;
      forall host: string | host != ""
        ensures SameRoute(parse, lb', DirectAnswer(parse, Config(routing, lb), host), DirectAnswer(parse, Config(EMPTY_ROUTING, lb'), host))
           <==> TrimsAlike(parse, routing, host)
      {
        AnsweredAlikeIff(parse, routing, lb, lb', host);
      }
      if forall rule <- routing.domains :: Named(rule) {
        AnsweredAlikeIff(parse, routing, lb, lb', "");
      } else {
        EmptyHostLabels(parse, routing, lb, lb');
      }
    }
  }

  lemma BlankDomainsTrimmed(routing: RoutingConfig)
    ensures (forall rule <- TrimmedRouting(routing).domains :: Named(rule)) <==> forall rule <- routing.domains :: Named(rule)
  {
    hide NormalizeHost, Trim;
    var rules, trimmed := routing.domains, TrimmedRules(routing.domains);
    assert forall i :: 0 <= i < |rules| ==> trimmed[i].domain == rules[i].domain && trimmed[i] in trimmed && rules[i] in rules;
  }

  lemma AnsweredAlikeIff(parse: UrlParser, routing: RoutingConfig, lb: LoadBalancerConfig, lb': LoadBalancerConfig, host: string)
    requires !HasBinding(lb) && BlankIsNoUpstream(parse) && MigratingParse(parse, routing)
    requires host != "" || forall rule <- routing.domains :: Named(rule)
    requires Builds(parse, Config(routing, lb))
    requires Builds(parse, Config(TrimmedRouting(routing), lb)) && Builds(parse, Config(EMPTY_ROUTING, lb'))
    requires SameRoute(parse, lb', DirectAnswer(parse, Config(TrimmedRouting(routing), lb), host),
                       DirectAnswer(parse, Config(EMPTY_ROUTING, lb'), host))
    ensures SameRoute(parse, lb', DirectAnswer(parse, Config(routing, lb), host), DirectAnswer(parse, Config(EMPTY_ROUTING, lb'), host))
       <==> TrimsAlike(parse, routing, host)
  {
    TrimmedAnswer(parse, routing, lb, host);
    hide NormalizeHost, Trim, DirectAnswer, AnsweringUpstream, Builds, HasBinding;
    var a, b := DirectAnswer(parse, Config(routing, lb), host), DirectAnswer(parse, Config(TrimmedRouting(routing), lb), host);
    SameRouteIff(parse, lb', a, b, DirectAnswer(parse, Config(EMPTY_ROUTING, lb'), host));
    hide SameRoute;
  }

  /** It need not build: an upstream that parses only thanks to a blank behind it is lost to trimming. */
  lemma BlankStopsMigration(parse: UrlParser, rule: DomainRule)
    requires Migrates(rule) && parse(rule.upstream).Some? && parse(Trim(rule.upstream)).None?
    ensures var routing, lb := RoutingConfig("", [rule]), LoadBalancerConfig("", [], []);
            && !HasBinding(lb) && Builds(parse, Config(routing, lb))
            && !Builds(parse, Config(EMPTY_ROUTING, Migrate(routing, lb)))
  {
    var routing, lb := RoutingConfig("", [rule]), LoadBalancerConfig("", [], []);
    assert Trim("") == "";
    hide Trim, Migrates, Migrate;
    assert rule in routing.domains && !HasBinding(lb);
    assert Builds(parse, Config(routing, lb));
    assert !MigratingParse(parse, routing);
    hide Builds, MigratingParse, HasBinding;
    MigratedBuildsIff(parse, routing, lb);
  }

  /** As "http://" is with an ideographic space for a host. */
  lemma BlankHostStopsMigration(parse: UrlParser, domain: string)
    requires NormalizeHost(domain) != ""
    requires parse("http://\U{3000}").Some? && parse("http://").None?
    ensures var routing, lb := RoutingConfig("", [DomainRule(domain, "http://\U{3000}", false)]), LoadBalancerConfig("", [], []);
            && !HasBinding(lb) && Builds(parse, Config(routing, lb))
            && !Builds(parse, Config(EMPTY_ROUTING, Migrate(routing, lb)))
  {
    TrimsToHttp();
    hide Trim, NormalizeHost, Migrate, Builds, HasBinding;
    BlankStopsMigration(parse, DomainRule(domain, "http://\U{3000}", false));
  }

  lemma TrimsToHttp()
    ensures Trim("http://\U{3000}") == "http://"
  {
    var text := "http://\U{3000}";
    assert TrimLeft(text, IsSpace) == text;
    assert text[..|text| - 1] == "http://";
  }
}
