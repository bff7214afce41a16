/** The compiled routing snapshot: its tables, how they are filled, and how a host is resolved. */
module Snapshot {
  import opened Wrappers
  import opened ConfigTypes
  import opened Ring
  import opened Routing
  import opened Seqs
  import opened Text
  import Arithmetic
  import RoundRobin

  datatype LbRouteItem = LbRouteItem(domain: string, forceHttps: bool, poolId: string, fallbackPoolId: string)

  datatype LbWildcardItem = LbWildcardItem(suffix: string, route: LbRouteItem)

  datatype WildcardItem = WildcardItem(suffix: string, route: RouteMatch)

  /** A pool at run time; the counter is the only part that changes after compilation. */
  class CompiledPool {
    const table: PoolTable
    var counter: nat

    constructor (table: PoolTable)
      requires table.RingInRange()
      ensures this.table == table && counter == 0 && Valid()
    {
      this.table := table;
      counter := 0;
    }

    ghost predicate Valid()
      reads this
    {
      table.RingInRange() && counter < COUNTER_MODULUS
    }

    /** One draw: the shared counter advances by one, modulo 2^64, and names a ring slot. */
    method Pick() returns (target: Option<Url>)
      requires Valid()
      modifies this`counter
      ensures Valid()
      ensures table.ring == [] ==> target == None && counter == old(counter)
      ensures table.ring != [] ==>
                && counter == Drawn(old(counter), 1)
                && target == Some(table.nodes[RoundRobin.Slot(table.ring, counter)].target)
    {
      if |table.ring| == 0 {
        return None;
      }
      counter := Drawn(counter, 1);
      hide Drawn;
      Arithmetic.ResidueIsMod(counter, |table.ring|);
      var index := table.ring[counter % |table.ring|];
      assert index in table.ring;
      target := Some(table.nodes[index].target);
    }
  }

  // What each table must hold, in terms of the rules it was compiled from.

  ghost predicate PoolsReflect(parse: UrlParser, pools: seq<LbPool>, table: map<string, CompiledPool>) {
    forall id :: PoolReflects(parse, pools, table, id)
  }

  ghost predicate PoolReflects(parse: UrlParser, pools: seq<LbPool>, table: map<string, CompiledPool>, id: string) {
    var i := LastPool(pools, id);
    && (id in table <==> id != "" && i >= 0)
    && (id in table ==>
          && UpstreamsParse(parse, pools[i].nodes)
          && table[id].table == CompiledPoolOf(parse, pools[i]))
  }

  function ItemOf(rule: LbRouteRule): LbRouteItem {
    LbRouteItem(NormalizeHost(rule.domain), rule.forceHttps, Trim(rule.poolId), Trim(rule.fallbackPoolId))
  }

  ghost predicate ExactReflects(routes: seq<LbRouteRule>, table: map<string, LbRouteItem>, host: string) {
    var i := LastIndex(routes, ExactRuleFor(host));
    && (host in table <==> i >= 0)
    && (host in table ==> table[host] == ItemOf(routes[i]))
  }

  /** The wildcard rules, in order. */
  function WildcardItems(routes: seq<LbRouteRule>): seq<LbWildcardItem> {
    if routes == [] then []
    else
      var k := |routes| - 1;
      var domain := NormalizeHost(routes[k].domain);
      WildcardItems(routes[..k])
      + (if IsWildcard(domain) then [LbWildcardItem(domain[1..], ItemOf(routes[k]))] else [])
  }

  ghost predicate LegacyReflects(parse: UrlParser, routes: seq<LbRouteRule>, rules: seq<DomainRule>,
                                 table: map<string, RouteMatch>, host: string) {
    var i := LastIndex(rules, LegacyRuleFor(routes, host));
    && (host in table <==> i >= 0)
    && (host in table ==> parse(rules[i].upstream).Some? && table[host] == LegacyRoute(parse, rules[i]))
  }

  function LegacyWildcardItems(parse: UrlParser, routes: seq<LbRouteRule>, rules: seq<DomainRule>): seq<WildcardItem>
    requires RulesParse(parse, rules)
  {
    if rules == [] then []
    else
      var k := |rules| - 1;
      var domain := NormalizeHost(rules[k].domain);
      assert forall rule <- rules[..k] :: rule in rules;
      LegacyWildcardItems(parse, routes, rules[..k])
      + (if IsWildcard(domain) && !TakenOver(routes, domain)
         then [WildcardItem(domain[1..], LegacyRoute(parse, rules[k]))] else [])
  }

  // One more rule extends what the tables reflect.

  lemma PoolAdded(parse: UrlParser, pools: seq<LbPool>, pool: LbPool, table: map<string, CompiledPool>, c: CompiledPool)
    requires PoolsReflect(parse, pools, table)
    requires UpstreamsParse(parse, pool.nodes) && c.table == CompiledPoolOf(parse, pool)
    requires Trim(pool.id) != ""
    ensures PoolsReflect(parse, pools + [pool], table[Trim(pool.id) := c])
  {
    var all, extended := pools + [pool], table[Trim(pool.id) := c];
    forall id ensures PoolReflects(parse, all, extended, id) {
      assert PoolReflects(parse, pools, table, id);
      FrontOfSnoc(pools, pool);
      assert LastPool(all, id) == if Trim(pool.id) == id then |pools| else LastPool(pools, id);
    }
  }

  lemma PoolSkipped(parse: UrlParser, pools: seq<LbPool>, pool: LbPool, table: map<string, CompiledPool>)
    requires PoolsReflect(parse, pools, table) && Trim(pool.id) == ""
    ensures PoolsReflect(parse, pools + [pool], table)
  {
    var all := pools + [pool];
    forall id ensures PoolReflects(parse, all, table, id) {
      assert PoolReflects(parse, pools, table, id);
      FrontOfSnoc(pools, pool);
      assert LastPool(all, id) == if Trim(pool.id) == id then |pools| else LastPool(pools, id);
    }
  }

  lemma RouteAdded(routes: seq<LbRouteRule>, rule: LbRouteRule, host: string)
    ensures LastIndex(routes + [rule], ExactRuleFor(host))
         == if ExactRuleFor(host)(rule) then |routes| else LastIndex(routes, ExactRuleFor(host))
    ensures WildcardItems(routes + [rule]) == WildcardItems(routes)
         + (if IsWildcard(NormalizeHost(rule.domain))
            then [LbWildcardItem(NormalizeHost(rule.domain)[1..], ItemOf(rule))] else [])
  {
    FrontOfSnoc(routes, rule);
  }

  lemma RuleAdded(parse: UrlParser, routes: seq<LbRouteRule>, rules: seq<DomainRule>, rule: DomainRule, host: string)
    requires RulesParse(parse, rules + [rule])
    ensures RulesParse(parse, rules)
    ensures LastIndex(rules + [rule], LegacyRuleFor(routes, host))
         == if LegacyRuleFor(routes, host)(rule) then |rules| else LastIndex(rules, LegacyRuleFor(routes, host))
    ensures LegacyWildcardItems(parse, routes, rules + [rule]) == LegacyWildcardItems(parse, routes, rules)
         + (if IsWildcard(NormalizeHost(rule.domain)) && !TakenOver(routes, NormalizeHost(rule.domain))
            then [WildcardItem(NormalizeHost(rule.domain)[1..], LegacyRoute(parse, rule))] else [])
  {
    FrontOfSnoc(rules, rule);
    assert forall r <- rules :: r in rules + [rule];
  }

  // The compiled domain test of the source agrees with the direct reading.

  predicate HasRuleFor(exact: map<string, LbRouteItem>, wildcards: seq<LbWildcardItem>, domain: string) {
    && domain != ""
    && (|| domain in exact
        || (if IsWildcard(domain)
            then exists item <- wildcards :: item.suffix == domain[1..]
            else exists item <- wildcards :: HasSuffix(domain, item.suffix)))
  }

  function WildcardItemOf(rule: LbRouteRule): LbWildcardItem
    requires IsWildcard(NormalizeHost(rule.domain))
  {
    LbWildcardItem(NormalizeHost(rule.domain)[1..], ItemOf(rule))
  }

  lemma {:induction false} ItemHasRule(routes: seq<LbRouteRule>, item: LbWildcardItem) returns (rule: LbRouteRule)
    requires item in WildcardItems(routes)
    ensures rule in routes && IsWildcard(NormalizeHost(rule.domain)) && item == WildcardItemOf(rule)
  {
    hide NormalizeHost;
    var k := |routes| - 1;
    if item in WildcardItems(routes[..k]) {
      rule := ItemHasRule(routes[..k], item);
    } else {
      rule := routes[k];
    }
  }

  lemma {:induction false} RuleHasItem(routes: seq<LbRouteRule>, i: nat)
    requires i < |routes| && IsWildcard(NormalizeHost(routes[i].domain))
    ensures WildcardItemOf(routes[i]) in WildcardItems(routes)
  {
    hide NormalizeHost;
    var k := |routes| - 1;
    if i < k {
      RuleHasItem(routes[..k], i);
    }
  }

  lemma HasRuleImpliesTakenOver(routes: seq<LbRouteRule>, exact: map<string, LbRouteItem>, domain: string)
    requires ExactReflects(routes, exact, domain) && HasRuleFor(exact, WildcardItems(routes), domain)
    ensures TakenOver(routes, domain)
  {
    hide NormalizeHost;
    if domain in exact {
      LastIndexIsLast(routes, ExactRuleFor(domain));
    } else {
      var item :| && item in WildcardItems(routes)
                  && (if IsWildcard(domain) then item.suffix == domain[1..] else HasSuffix(domain, item.suffix));
      var rule := ItemHasRule(routes, item);
      if IsWildcard(domain) {
        var d := NormalizeHost(rule.domain);
        assert d == ['*'] + d[1..] && domain == ['*'] + domain[1..];
      }
    }
  }

  lemma TakenOverImpliesHasRule(routes: seq<LbRouteRule>, exact: map<string, LbRouteItem>, domain: string)
    requires ExactReflects(routes, exact, domain) && TakenOver(routes, domain)
    ensures HasRuleFor(exact, WildcardItems(routes), domain)
  {
    hide NormalizeHost;
    var i :| && 0 <= i < |routes|
             && (|| NormalizeHost(routes[i].domain) == domain
                 || (!IsWildcard(domain) && Covers(routes[i].domain, domain)));
    if IsWildcard(NormalizeHost(routes[i].domain)) {
      RuleHasItem(routes, i);
    } else {
      LastIndexIsLast(routes, ExactRuleFor(domain));
      assert ExactRuleFor(domain)(routes[i]);
    }
  }

  /** The compiled test for a claimed domain agrees with the direct reading. */
  lemma HasRuleIffTakenOver(routes: seq<LbRouteRule>, exact: map<string, LbRouteItem>, domain: string)
    requires ExactReflects(routes, exact, domain)
    ensures HasRuleFor(exact, WildcardItems(routes), domain) <==> TakenOver(routes, domain)
  {
    hide *;
    if HasRuleFor(exact, WildcardItems(routes), domain) {
      HasRuleImpliesTakenOver(routes, exact, domain);
    }
    if TakenOver(routes, domain) {
      TakenOverImpliesHasRule(routes, exact, domain);
    }
  }

  // Filling the tables. The methods below mirror compileLoadBalancerConfig and buildSnapshot.

  /** Distinct ids have distinct pool objects, all of them sound. */
  ghost predicate PoolsValid(pools: map<string, CompiledPool>)
    reads pools.Values
  {
    && (forall id <- pools :: pools[id].Valid())
    && (forall a <- pools, b <- pools :: a != b ==> pools[a] != pools[b])
  }

  method CompilePools(parse: UrlParser, pools: seq<LbPool>) returns (r: Option<map<string, CompiledPool>>)
    ensures r.Some? <==> PoolsParse(parse, pools)
    ensures r.Some? ==> PoolsReflect(parse, pools, r.value) && PoolsValid(r.value)
    ensures r.Some? ==> forall id <- r.value :: fresh(r.value[id]) && r.value[id].counter == 0
  {
    var table: map<string, CompiledPool> := map[];
    for n := 0 to |pools|
      invariant PoolsParse(parse, pools[..n])
      invariant PoolsReflect(parse, pools[..n], table)
      invariant PoolsValid(table)
      invariant forall id <- table :: fresh(table[id]) && table[id].counter == 0
    {
      var pool := pools[n];
      TakeSnoc(pools, n);
      var poolId := Trim(pool.id);
      if poolId == "" {
        PoolSkipped(parse, pools[..n], pool, table);
        continue;
      }
      var compiled := CompileLoadBalancerPool(parse, pool);
      if compiled.Failure? {
        assert pool in pools;
        return None;
      }
      var c := new CompiledPool(compiled.value);
      PoolAdded(parse, pools[..n], pool, table, c);
      table := table[poolId := c];
    }
    TakeAll(pools);
    r := Some(table);
  }

  /** What one load-balancer rule adds to the exact table. */
  function WithRoute(rule: LbRouteRule, exact: map<string, LbRouteItem>): map<string, LbRouteItem> {
    var domain := NormalizeHost(rule.domain);
    if domain == "" || IsWildcard(domain) then exact else exact[domain := ItemOf(rule)]
  }

  lemma RoutesReflected(routes: seq<LbRouteRule>, rule: LbRouteRule, exact: map<string, LbRouteItem>)
    requires forall host :: ExactReflects(routes, exact, host)
    ensures forall host :: ExactReflects(routes + [rule], WithRoute(rule, exact), host)
  {
    hide NormalizeHost, Trim;
    var all, extended := routes + [rule], WithRoute(rule, exact);
    forall host ensures ExactReflects(all, extended, host) {
      assert ExactReflects(routes, exact, host);
      RouteAdded(routes, rule, host);
    }
  }

  lemma NoRoutesReflected()
    ensures forall host :: ExactReflects([], map[], host)
  {
  }

  method CompileRoutes(routes: seq<LbRouteRule>)
    returns (exact: map<string, LbRouteItem>, wildcards: seq<LbWildcardItem>)
    ensures forall host :: ExactReflects(routes, exact, host)
    ensures wildcards == WildcardItems(routes)
  {
    hide NormalizeHost, Trim, ExactReflects;
    exact, wildcards := map[], [];
    NoRoutesReflected();
    for n := 0 to |routes|
      invariant forall host :: ExactReflects(routes[..n], exact, host)
      invariant wildcards == WildcardItems(routes[..n])
    {
      var rule := routes[n];
      var domain := NormalizeHost(rule.domain);
      TakeSnoc(routes, n);
      RouteAdded(routes[..n], rule, domain);
      RoutesReflected(routes[..n], rule, exact);
      ghost var next := WithRoute(rule, exact);
      if domain != "" {
        var item := LbRouteItem(domain, rule.forceHttps, Trim(rule.poolId), Trim(rule.fallbackPoolId));
        if HasPrefix(domain, "*.") {
          wildcards := wildcards + [LbWildcardItem(domain[1..], item)];
        } else {
          exact := exact[domain := item];
        }
      }
      assert exact == next;
    }
    TakeAll(routes);
  }

  method HasLoadBalancerRuleForDomain(exact: map<string, LbRouteItem>, wildcards: seq<LbWildcardItem>, domain: string)
    returns (found: bool)
    ensures found <==> HasRuleFor(exact, wildcards, domain)
  {
    if domain == "" {
      return false;
    }
    if domain in exact {
      return true;
    }
    if HasPrefix(domain, "*.") {
      var suffix := domain[1..];
      for n := 0 to |wildcards|
        invariant forall k :: 0 <= k < n ==> wildcards[k].suffix != suffix
      {
        if wildcards[n].suffix == suffix {
          return true;
        }
      }
      return false;
    }
    for n := 0 to |wildcards|
      invariant forall k :: 0 <= k < n ==> !HasSuffix(domain, wildcards[k].suffix)
    {
      if HasSuffix(domain, wildcards[n].suffix) {
        return true;
      }
    }
    return false;
  }

  /** What one legacy rule adds: nothing when the load balancer speaks for its domain. */
  function WithRule(parse: UrlParser, routes: seq<LbRouteRule>, rule: DomainRule, exact: map<string, RouteMatch>)
    : map<string, RouteMatch>
    requires parse(rule.upstream).Some?
  {
    var domain := NormalizeHost(rule.domain);
    if TakenOver(routes, domain) || IsWildcard(domain) then exact else exact[domain := LegacyRoute(parse, rule)]
  }

  lemma RulesReflected(parse: UrlParser, routes: seq<LbRouteRule>, rules: seq<DomainRule>, rule: DomainRule,
                       exact: map<string, RouteMatch>)
    requires forall host :: LegacyReflects(parse, routes, rules, exact, host)
    requires RulesParse(parse, rules + [rule]) && parse(rule.upstream).Some?
    ensures forall host :: LegacyReflects(parse, routes, rules + [rule], WithRule(parse, routes, rule, exact), host)
  {
    hide NormalizeHost, TakenOver;
    var all, extended := rules + [rule], WithRule(parse, routes, rule, exact);
    forall host ensures LegacyReflects(parse, routes, all, extended, host) {
      assert LegacyReflects(parse, routes, rules, exact, host);
      RuleAdded(parse, routes, rules, rule, host);
    }
  }

  method CompileRules(parse: UrlParser, routes: seq<LbRouteRule>, rules: seq<DomainRule>,
                      lbExact: map<string, LbRouteItem>, lbWildcards: seq<LbWildcardItem>)
    returns (r: Option<(map<string, RouteMatch>, seq<WildcardItem>)>)
    requires forall host :: ExactReflects(routes, lbExact, host)
    requires lbWildcards == WildcardItems(routes)
    ensures r.Some? <==> RulesParse(parse, rules)
    ensures r.Some? ==> forall host :: LegacyReflects(parse, routes, rules, r.value.0, host)
    ensures r.Some? ==> r.value.1 == LegacyWildcardItems(parse, routes, rules)
  {
    hide NormalizeHost, TakenOver, LegacyReflects, ExactReflects, HasRuleFor;
    var exact: map<string, RouteMatch> := map[];
    var wildcards: seq<WildcardItem> := [];
    NothingReflected(parse, routes);
    for n := 0 to |rules|
      invariant RulesParse(parse, rules[..n])
      invariant forall host :: LegacyReflects(parse, routes, rules[..n], exact, host)
      invariant wildcards == LegacyWildcardItems(parse, routes, rules[..n])
    {
      var rule := rules[n];
      TakeSnoc(rules, n);
      var upstreamUrl := parse(rule.upstream);
      if upstreamUrl.None? {
        assert rule in rules;
        return None;
      }
      assert RulesParse(parse, rules[..n + 1]);
      var domain := NormalizeHost(rule.domain);
      ghost var next := WithRule(parse, routes, rule, exact);
      RuleAdded(parse, routes, rules[..n], rule, domain);
      RulesReflected(parse, routes, rules[..n], rule, exact);
      HasRuleIffTakenOver(routes, lbExact, domain);
      var taken := HasLoadBalancerRuleForDomain(lbExact, lbWildcards, domain);
      if !taken {
        var item := RouteMatch(domain, rule.forceHttps, upstreamUrl.value);
        if HasPrefix(domain, "*.") {
          wildcards := wildcards + [WildcardItem(domain[1..], item)];
        } else {
          exact := exact[domain := item];
        }
      }
      assert exact == next;
    }
    TakeAll(rules);
    r := Some((exact, wildcards));
  }

  lemma NothingReflected(parse: UrlParser, routes: seq<LbRouteRule>)
    ensures forall host :: LegacyReflects(parse, routes, [], map[], host)
  {
  }

  // Resolving a host against the tables.

  predicate HasRing(pools: map<string, CompiledPool>, poolId: string) {
    Trim(poolId) in pools && pools[Trim(poolId)].table.ring != []
  }

  function ServingPool(pools: map<string, CompiledPool>, primary: string, fallback: string): Option<string> {
    if HasRing(pools, primary) then Some(Trim(primary))
    else if fallback != "" && HasRing(pools, fallback) then Some(Trim(fallback))
    else None
  }

  lemma HasRingIffAvailable(parse: UrlParser, lb: LoadBalancerConfig, pools: map<string, CompiledPool>, id: string)
    requires PoolsReflect(parse, lb.pools, pools)
    ensures HasRing(pools, id) <==> Available(lb, id)
    ensures HasRing(pools, Trim(id)) <==> Available(lb, id)
  {
    TrimIdempotent(id);
    hide Trim;
    var key := Trim(id);
    assert PoolReflects(parse, lb.pools, pools, key);
    if key in pools {
      RingEmptyIffNothingEnabled(parse, lb.pools[LastPool(lb.pools, key)]);
    }
  }

  lemma ServingPoolIsServing(parse: UrlParser, lb: LoadBalancerConfig, pools: map<string, CompiledPool>,
                             primary: string, fallback: string)
    requires PoolsReflect(parse, lb.pools, pools)
    ensures ServingPool(pools, Trim(primary), Trim(fallback)) == Serving(lb, primary, fallback)
  {
    TrimIdempotent(primary);
    TrimIdempotent(fallback);
    HasRingIffAvailable(parse, lb, pools, primary);
    HasRingIffAvailable(parse, lb, pools, fallback);
    hide HasRing, Trim;
  }

  lemma DefaultPoolServes(parse: UrlParser, lb: LoadBalancerConfig, pools: map<string, CompiledPool>)
    requires PoolsReflect(parse, lb.pools, pools)
    ensures ServingPool(pools, Trim(lb.defaultPoolId), "")
         == if Available(lb, lb.defaultPoolId) then Some(Trim(lb.defaultPoolId)) else None
    ensures Trim(lb.defaultPoolId) == "" ==> !Available(lb, lb.defaultPoolId)
  {
    TrimIdempotent(lb.defaultPoolId);
    HasRingIffAvailable(parse, lb, pools, lb.defaultPoolId);
    hide HasRing, Trim;
  }

  function ItemServes(pools: map<string, CompiledPool>, host: string): LbWildcardItem -> bool {
    (item: LbWildcardItem) =>
      HasSuffix(host, item.suffix) && ServingPool(pools, item.route.poolId, item.route.fallbackPoolId).Some?
  }

  /** Scanning the compiled wildcard list finds the rule that scanning the configuration finds. */
  lemma {:induction false} FirstItemIsFirstRule(parse: UrlParser, lb: LoadBalancerConfig, routes: seq<LbRouteRule>,
                                                pools: map<string, CompiledPool>, host: string)
    requires PoolsReflect(parse, lb.pools, pools)
    ensures var i := FirstIndex(WildcardItems(routes), ItemServes(pools, host));
            var w := FirstIndex(routes, WildcardRuleFor(lb, host));
            && (i >= 0 <==> w >= 0)
            && (w >= 0 ==> IsWildcard(NormalizeHost(routes[w].domain)))
            && (w >= 0 ==> WildcardItems(routes)[i] == WildcardItemOf(routes[w]))
  {
    hide NormalizeHost, Trim, ServingPool, Serving, PoolsReflect;
    if routes != [] {
      var k := |routes| - 1;
      FirstItemIsFirstRule(parse, lb, routes[..k], pools, host);
      var rule, front := routes[k], WildcardItems(routes[..k]);
      ServingPoolIsServing(parse, lb, pools, rule.poolId, rule.fallbackPoolId);
      if IsWildcard(NormalizeHost(rule.domain)) {
        FrontOfSnoc(front, WildcardItemOf(rule));
      } else {
        assert WildcardItems(routes) == front;
      }
    }
  }

  function LegacyCovering(host: string): WildcardItem -> bool {
    (item: WildcardItem) => HasSuffix(host, item.suffix)
  }

  /** Two scans, of compiled items and of rules, end with the same route or both with nothing. */
  ghost predicate SameFind(parse: UrlParser, items: seq<WildcardItem>, rules: seq<DomainRule>, i: int, w: int) {
    && (i >= 0 <==> w >= 0)
    && (w >= 0 ==> i < |items| && w < |rules| && parse(rules[w].upstream).Some? && items[i].route == LegacyRoute(parse, rules[w]))
  }

  /** Scanning the compiled legacy wildcards finds the rule that scanning the configuration finds. */
  lemma {:induction false} FirstItemIsFirstLegacyRule(parse: UrlParser, routes: seq<LbRouteRule>,
                                                      rules: seq<DomainRule>, host: string)
    requires RulesParse(parse, rules)
    ensures var items := LegacyWildcardItems(parse, routes, rules);
            SameFind(parse, items, rules, FirstIndex(items, LegacyCovering(host)), FirstIndex(rules, LegacyWildcardFor(routes, host)))
  {
    hide NormalizeHost, TakenOver, LegacyRoute, SameFind;
    if rules != [] {
      var front, rule := rules[..|rules| - 1], rules[|rules| - 1];
      assert rules == front + [rule];
      assert parse(rule.upstream).Some? by { assert rule in rules; }
      RuleAdded(parse, routes, front, rule, host);
      FirstItemIsFirstLegacyRule(parse, routes, front, host);
      var items := LegacyWildcardItems(parse, routes, front);
      if IsWildcard(NormalizeHost(rule.domain)) && !TakenOver(routes, NormalizeHost(rule.domain)) {
        OneLegacyRuleMore(parse, routes, front, rule, items, host);
      } else {
        assert items + [] == items;
        OneLegacyRuleSkipped(parse, routes, front, rule, items, host);
      }
      hide *;
    } else {
      NothingFoundAlike(parse, routes, host);
    }
  }

  lemma NothingFoundAlike(parse: UrlParser, routes: seq<LbRouteRule>, host: string)
    ensures SameFind(parse, [], [], FirstIndex([], LegacyCovering(host)), FirstIndex([], LegacyWildcardFor(routes, host)))
  {
  }

  lemma OneLegacyRuleMore(parse: UrlParser, routes: seq<LbRouteRule>, front: seq<DomainRule>, rule: DomainRule,
                          items: seq<WildcardItem>, host: string)
    requires IsWildcard(NormalizeHost(rule.domain)) && !TakenOver(routes, NormalizeHost(rule.domain)) && parse(rule.upstream).Some?
    requires SameFind(parse, items, front, FirstIndex(items, LegacyCovering(host)), FirstIndex(front, LegacyWildcardFor(routes, host)))
    ensures var items', rules := items + [WildcardItem(NormalizeHost(rule.domain)[1..], LegacyRoute(parse, rule))], front + [rule];
            SameFind(parse, items', rules, FirstIndex(items', LegacyCovering(host)), FirstIndex(rules, LegacyWildcardFor(routes, host)))
  {
    var item := WildcardItem(NormalizeHost(rule.domain)[1..], LegacyRoute(parse, rule));
    assert LegacyWildcardFor(routes, host)(rule) == LegacyCovering(host)(item) by { hide NormalizeHost, TakenOver, HasSuffix; }
    hide NormalizeHost, TakenOver, LegacyRoute, FirstIndex, HasSuffix, IsWildcard, LegacyWildcardFor, LegacyCovering;
    FoundOneMore(front, rule, LegacyWildcardFor(routes, host), items, item, LegacyCovering(host));
  }

  lemma OneLegacyRuleSkipped(parse: UrlParser, routes: seq<LbRouteRule>, front: seq<DomainRule>, rule: DomainRule,
                             items: seq<WildcardItem>, host: string)
    requires !(IsWildcard(NormalizeHost(rule.domain)) && !TakenOver(routes, NormalizeHost(rule.domain)))
    requires SameFind(parse, items, front, FirstIndex(items, LegacyCovering(host)), FirstIndex(front, LegacyWildcardFor(routes, host)))
    ensures SameFind(parse, items, front + [rule], FirstIndex(items, LegacyCovering(host)), FirstIndex(front + [rule], LegacyWildcardFor(routes, host)))
  {
    assert !LegacyWildcardFor(routes, host)(rule) by { hide NormalizeHost, TakenOver, HasSuffix; }
    hide NormalizeHost, TakenOver, LegacyRoute, FirstIndex, HasSuffix, IsWildcard, LegacyWildcardFor, LegacyCovering;
    FirstIndexSnoc(front, rule, LegacyWildcardFor(routes, host));
  }

  class Snapshot {
    const cfg: Config
    const lbPools: map<string, CompiledPool>
    const lbExactRoutes: map<string, LbRouteItem>
    const lbWildcardRoutes: seq<LbWildcardItem>
    const lbDefaultRoute: Option<LbRouteItem>
    const exactRoutes: map<string, RouteMatch>
    const wildcardRoutes: seq<WildcardItem>
    const defaultRoute: Option<RouteMatch>

    constructor (cfg: Config, lbPools: map<string, CompiledPool>,
                 lbExactRoutes: map<string, LbRouteItem>, lbWildcardRoutes: seq<LbWildcardItem>,
                 lbDefaultRoute: Option<LbRouteItem>,
                 exactRoutes: map<string, RouteMatch>, wildcardRoutes: seq<WildcardItem>,
                 defaultRoute: Option<RouteMatch>)
      ensures this.cfg == cfg && this.lbPools == lbPools
      ensures this.lbExactRoutes == lbExactRoutes && this.lbWildcardRoutes == lbWildcardRoutes
      ensures this.lbDefaultRoute == lbDefaultRoute
      ensures this.exactRoutes == exactRoutes && this.wildcardRoutes == wildcardRoutes
      ensures this.defaultRoute == defaultRoute
    {
      this.cfg, this.lbPools := cfg, lbPools;
      this.lbExactRoutes, this.lbWildcardRoutes, this.lbDefaultRoute := lbExactRoutes, lbWildcardRoutes, lbDefaultRoute;
      this.exactRoutes, this.wildcardRoutes, this.defaultRoute := exactRoutes, wildcardRoutes, defaultRoute;
    }

    /** The tables hold exactly what the configuration says. */
    ghost predicate LbReflects(parse: UrlParser) {
      var lb := cfg.loadBalancer;
      && PoolsReflect(parse, lb.pools, lbPools)
      && (forall host :: ExactReflects(lb.routes, lbExactRoutes, host))
      && lbWildcardRoutes == WildcardItems(lb.routes)
      && lbDefaultRoute == (if Trim(lb.defaultPoolId) == "" then None
                            else Some(LbRouteItem(LB_DEFAULT_LABEL, false, Trim(lb.defaultPoolId), "")))
    }

    ghost predicate Reflects(parse: UrlParser) {
      && Builds(parse, cfg)
      && LbReflects(parse)
      && (forall host :: LegacyReflects(parse, cfg.loadBalancer.routes, cfg.routing.domains, exactRoutes, host))
      && wildcardRoutes == LegacyWildcardItems(parse, cfg.loadBalancer.routes, cfg.routing.domains)
      && defaultRoute == (if UsesLegacyDefault(cfg)
                          then Some(RouteMatch(DEFAULT_LABEL, false, parse(cfg.routing.defaultUpstream).value))
                          else None)
    }

    /** Where the pools' counters stand. */
    function Counters(): (counters: map<string, nat>)
      reads lbPools.Values
      ensures counters.Keys == lbPools.Keys
    {
      map id <- lbPools :: lbPools[id].counter
    }

    /** A draw of this pool with its counter at this value. */
    predicate SentTo(id: string, counter: nat, target: Url) {
      && id in lbPools
      && var table := lbPools[id].table;
         && table.ring != [] && table.RingInRange()
         && target == table.nodes[RoundRobin.Slot(table.ring, counter)].target
    }

    /** Exactly one draw, from this pool, and this is what it returned. */
    predicate Drew(before: map<string, nat>, after: map<string, nat>, id: string, target: Option<Url>) {
      && id in before && after == before[id := Drawn(before[id], 1)]
      && target.Some? && SentTo(id, after[id], target.value)
    }

    /** What a lookup that answers `a` returns, and what it does to the counters. */
    predicate AnsweredBy(before: map<string, nat>, after: map<string, nat>, a: Answer, m: Option<RouteMatch>) {
      match a
      case FromPool(domain, forceHttps, poolId) =>
        && m.Some? && m.value.domain == domain && m.value.forceHttps == forceHttps
        && Drew(before, after, poolId, Some(m.value.target))
      case Fixed(route) => m == Some(route) && after == before
      case NoAnswer => m == None && after == before
    }

    method PickTargetFromPool(poolId: string) returns (target: Option<Url>)
      requires PoolsValid(lbPools)
      modifies lbPools.Values
      ensures PoolsValid(lbPools)
      ensures HasRing(lbPools, poolId) ==> Drew(old(Counters()), Counters(), Trim(poolId), target)
      ensures !HasRing(lbPools, poolId) ==> target == None && Counters() == old(Counters())
    {
      hide Trim, Drawn;
      var id := Trim(poolId);
      if id !in lbPools {
        return None;
      }
      ghost var before := Counters();
      target := lbPools[id].Pick();
      assert Counters() == if lbPools[id].table.ring == [] then before else before[id := Drawn(before[id], 1)];
    }

    method ResolvePoolTarget(primary: string, fallback: string) returns (target: Option<Url>)
      requires PoolsValid(lbPools)
      modifies lbPools.Values
      ensures PoolsValid(lbPools)
      ensures var p := ServingPool(lbPools, primary, fallback);
              if p.Some? then Drew(old(Counters()), Counters(), p.value, target)
              else target == None && Counters() == old(Counters())
    {
      hide Trim, HasRing, Counters, Drawn, SentTo;
      target := PickTargetFromPool(primary);
      if target.Some? {
        return;
      }
      if fallback != "" {
        target := PickTargetFromPool(fallback);
      }
    }

    predicate ItemAnswers(item: LbRouteItem) {
      ServingPool(lbPools, item.poolId, item.fallbackPoolId).Some?
    }

    function ItemAnswer(item: LbRouteItem): Answer
      requires ItemAnswers(item)
    {
      FromPool(item.domain, item.forceHttps, ServingPool(lbPools, item.poolId, item.fallbackPoolId).value)
    }

    /** The answer the tables give. */
    function TableAnswer(host: string): Answer {
      var i := FirstIndex(lbWildcardRoutes, ItemServes(lbPools, host));
      if host in lbExactRoutes && ItemAnswers(lbExactRoutes[host]) then ItemAnswer(lbExactRoutes[host])
      else if i >= 0 && ItemAnswers(lbWildcardRoutes[i].route) then ItemAnswer(lbWildcardRoutes[i].route)
      else if lbDefaultRoute.Some? && ItemAnswers(lbDefaultRoute.value) then ItemAnswer(lbDefaultRoute.value)
      else NoAnswer
    }

    /** The compiled tables refine the direct reading of the rules. */
    lemma TablesAnswerDirectly(parse: UrlParser, host: string)
      requires LbReflects(parse)
      ensures TableAnswer(host) == LbAnswer(cfg.loadBalancer, host)
    {
      var lb := cfg.loadBalancer;
      hide Trim, NormalizeHost, Serving, ServingPool, PoolsReflect, Available;
      assert ExactReflects(lb.routes, lbExactRoutes, host);
      var e, w := LastIndex(lb.routes, ExactRuleFor(host)), FirstIndex(lb.routes, WildcardRuleFor(lb, host));
      LastIndexIsLast(lb.routes, ExactRuleFor(host));
      FirstItemIsFirstRule(parse, lb, lb.routes, lbPools, host);
      if e >= 0 {
        ServingPoolIsServing(parse, lb, lbPools, lb.routes[e].poolId, lb.routes[e].fallbackPoolId);
      }
      if w >= 0 {
        ServingPoolIsServing(parse, lb, lbPools, lb.routes[w].poolId, lb.routes[w].fallbackPoolId);
      }
      DefaultPoolServes(parse, lb, lbPools);
    }

    /** One binding: a match when one of its pools answers. */
    method MatchItem(item: LbRouteItem) returns (m: Option<RouteMatch>)
      requires PoolsValid(lbPools)
      modifies lbPools.Values
      ensures PoolsValid(lbPools)
      ensures AnsweredBy(old(Counters()), Counters(), if ItemAnswers(item) then ItemAnswer(item) else NoAnswer, m)
    {
      hide ServingPool, PoolsValid, Counters, Drawn, SentTo;
      var target := ResolvePoolTarget(item.poolId, item.fallbackPoolId);
      m := if target.Some? then Some(RouteMatch(item.domain, item.forceHttps, target.value)) else None;
    }

    /** The wildcard bindings in order, up to the first that answers. */
    method MatchWildcards(host: string) returns (m: Option<RouteMatch>)
      requires PoolsValid(lbPools)
      modifies lbPools.Values
      ensures PoolsValid(lbPools)
      ensures var i := FirstIndex(lbWildcardRoutes, ItemServes(lbPools, host));
              AnsweredBy(old(Counters()), Counters(),
                         if i >= 0 && ItemAnswers(lbWildcardRoutes[i].route)
                         then ItemAnswer(lbWildcardRoutes[i].route) else NoAnswer, m)
    {
      hide ServingPool, PoolsValid, Counters, Drawn, SentTo;
      FirstIndexIsFirst(lbWildcardRoutes, ItemServes(lbPools, host));
      for n := 0 to |lbWildcardRoutes|
        invariant forall k :: 0 <= k < n ==> !ItemServes(lbPools, host)(lbWildcardRoutes[k])
        invariant PoolsValid(lbPools) && Counters() == old(Counters())
      {
        var item := lbWildcardRoutes[n];
        if HasSuffix(host, item.suffix) {
          m := MatchItem(item.route);
          if m.Some? {
            assert ItemServes(lbPools, host)(item);
            return;
          }
        }
      }
      return None;
    }

    method ResolveLoadBalancerRoute(host: string) returns (m: Option<RouteMatch>)
      requires PoolsValid(lbPools)
      modifies lbPools.Values
      ensures PoolsValid(lbPools)
      ensures AnsweredBy(old(Counters()), Counters(), TableAnswer(host), m)
    {
      hide ServingPool, PoolsValid, ItemServes, Counters, Drawn, SentTo;
      if host in lbExactRoutes {
        m := MatchItem(lbExactRoutes[host]);
        if m.Some? {
          return;
        }
      }
      m := MatchWildcards(host);
      if m.Some? {
        return;
      }
      if lbDefaultRoute.Some? {
        m := MatchItem(lbDefaultRoute.value);
      }
    }

    /** Resolving a host gives what the configuration says for its normalised form, with one draw from
        the answering pool and none from any other. */
    method ResolveRoute(parse: UrlParser, host: string) returns (m: Option<RouteMatch>)
      requires Reflects(parse) && PoolsValid(lbPools)
      modifies lbPools.Values
      ensures PoolsValid(lbPools)
      ensures AnsweredBy(old(Counters()), Counters(), DirectAnswer(parse, cfg, NormalizeHost(host)), m)
    {
      hide NormalizeHost, LbAnswer, TakenOver, LbReflects, LegacyRoute, TableAnswer, Counters, Drew;
      var normalizedHost := NormalizeHost(host);
      TablesAnswerDirectly(parse, normalizedHost);
      m := ResolveLoadBalancerRoute(normalizedHost);
      if m.Some? {
        return;
      }
      ghost var rules, routes := cfg.routing.domains, cfg.loadBalancer.routes;
      assert LegacyReflects(parse, routes, rules, exactRoutes, normalizedHost);
      if normalizedHost in exactRoutes {
        return Some(exactRoutes[normalizedHost]);
      }
      FirstItemIsFirstLegacyRule(parse, routes, rules, normalizedHost);
      FirstIndexIsFirst(wildcardRoutes, LegacyCovering(normalizedHost));
      for n := 0 to |wildcardRoutes|
        invariant forall k :: 0 <= k < n ==> !LegacyCovering(normalizedHost)(wildcardRoutes[k])
      {
        var item := wildcardRoutes[n];
        if HasSuffix(normalizedHost, item.suffix) {
          assert n == FirstIndex(wildcardRoutes, LegacyCovering(normalizedHost));
          return Some(item.route);
        }
      }
      return defaultRoute;
    }
  }

  /** Compiling succeeds exactly when every upstream it reads parses, and the tables then hold what the
      configuration says. */
  method BuildSnapshot(parse: UrlParser, cfg: Config) returns (r: Option<Snapshot>)
    ensures r.Some? <==> Builds(parse, cfg)
    ensures r.Some? ==> fresh(r.value) && fresh(r.value.lbPools.Values)
    ensures r.Some? ==> r.value.cfg == cfg && r.value.Reflects(parse) && PoolsValid(r.value.lbPools)
    ensures r.Some? ==> forall id <- r.value.lbPools :: r.value.lbPools[id].counter == 0
  {
    hide Trim, PoolsReflect, ExactReflects, LegacyReflects, RulesParse, PoolsParse, WildcardItems;
    var lb := cfg.loadBalancer;
    var pools := CompilePools(parse, lb.pools);
    if pools.None? {
      return None;
    }
    var lbExact, lbWildcards := CompileRoutes(lb.routes);
    var defaultPoolId := Trim(lb.defaultPoolId);
    var lbDefault :=
      if defaultPoolId != "" then Some(LbRouteItem(LB_DEFAULT_LABEL, false, defaultPoolId, "")) else None;
    var legacy := CompileRules(parse, lb.routes, cfg.routing.domains, lbExact, lbWildcards);
    if legacy.None? {
      return None;
    }
    var defaultRoute: Option<RouteMatch> := None;
    if cfg.routing.defaultUpstream != "" && lbDefault.None? {
      var upstreamUrl := parse(cfg.routing.defaultUpstream);
      if upstreamUrl.None? {
        return None;
      }
      defaultRoute := Some(RouteMatch(DEFAULT_LABEL, false, upstreamUrl.value));
    }
    var snapshot := new Snapshot(cfg, pools.value, lbExact, lbWildcards, lbDefault,
                                 legacy.value.0, legacy.value.1, defaultRoute);
    r := Some(snapshot);
  }
}
