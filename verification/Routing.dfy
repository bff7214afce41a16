/** What a routing configuration means: a direct reading of its rules, with no compiled tables. */
module Routing {
  import opened Wrappers
  import opened ConfigTypes
  import opened Seqs
  import opened Text
  import Ring

  /** How a host is answered: by drawing from a pool, by a fixed upstream, or not at all. */
  datatype Answer =
    | FromPool(domain: string, forceHttps: bool, poolId: string)
    | Fixed(route: RouteMatch)
    | NoAnswer

  const LB_DEFAULT_LABEL := "_lb_default"
  const DEFAULT_LABEL := "_default"

  predicate IsWildcard(domain: string) {
    HasPrefix(domain, "*.")
  }

  /** A rule for exactly this host. */
  predicate Exactly(domain: string, host: string) {
    NormalizeHost(domain) == host && !IsWildcard(host)
  }

  /** A wildcard rule covering this host. */
  predicate Covers(domain: string, host: string) {
    IsWildcard(NormalizeHost(domain)) && HasSuffix(host, NormalizeHost(domain)[1..])
  }

  // Pools

  function HasId(id: string): LbPool -> bool {
    (pool: LbPool) => Trim(pool.id) == id
  }

  /** The last definition of a pool id, or -1. */
  function LastPool(pools: seq<LbPool>, id: string): int {
    LastIndex(pools, HasId(id))
  }

  /** A pool can serve when it is named and its last definition has an enabled node. */
  predicate Available(lb: LoadBalancerConfig, id: string) {
    && Trim(id) != ""
    && var i := LastPool(lb.pools, Trim(id));
       i >= 0 && exists node <- lb.pools[i].nodes :: node.enabled
  }

  /** The pool that serves a binding: the fallback only when the primary cannot. */
  function Serving(lb: LoadBalancerConfig, primary: string, fallback: string): Option<string> {
    if Available(lb, primary) then Some(Trim(primary))
    else if Available(lb, fallback) then Some(Trim(fallback))
    else None
  }

  predicate Serves(lb: LoadBalancerConfig, rule: LbRouteRule) {
    Serving(lb, rule.poolId, rule.fallbackPoolId).Some?
  }

  // Load-balancer rules

  function ExactRuleFor(host: string): LbRouteRule -> bool {
    (rule: LbRouteRule) => host != "" && Exactly(rule.domain, host)
  }

  function WildcardRuleFor(lb: LoadBalancerConfig, host: string): LbRouteRule -> bool {
    (rule: LbRouteRule) => Covers(rule.domain, host) && Serves(lb, rule)
  }

  function BoundTo(lb: LoadBalancerConfig, rule: LbRouteRule): Answer
    requires Serves(lb, rule)
  {
    FromPool(NormalizeHost(rule.domain), rule.forceHttps, Serving(lb, rule.poolId, rule.fallbackPoolId).value)
  }

  /** The last exact rule if its pools can serve, else the first wildcard rule whose pools can, else
      the default pool. */
  function LbAnswer(lb: LoadBalancerConfig, host: string): Answer {
    var e := LastIndex(lb.routes, ExactRuleFor(host));
    var w := FirstIndex(lb.routes, WildcardRuleFor(lb, host));
    if e >= 0 && Serves(lb, lb.routes[e]) then BoundTo(lb, lb.routes[e])
    else if w >= 0 && Serves(lb, lb.routes[w]) then BoundTo(lb, lb.routes[w])
    else if Available(lb, lb.defaultPoolId) then FromPool(LB_DEFAULT_LABEL, false, Trim(lb.defaultPoolId))
    else NoAnswer
  }

  // Legacy rules

  /** Some load-balancer rule already speaks for this domain. */
  predicate TakenOver(routes: seq<LbRouteRule>, domain: string) {
    && domain != ""
    && exists rule <- routes ::
         || NormalizeHost(rule.domain) == domain
         || (!IsWildcard(domain) && Covers(rule.domain, domain))
  }

  function LegacyRuleFor(routes: seq<LbRouteRule>, host: string): DomainRule -> bool {
    (rule: DomainRule) => Exactly(rule.domain, host) && !TakenOver(routes, host)
  }

  function LegacyWildcardFor(routes: seq<LbRouteRule>, host: string): DomainRule -> bool {
    (rule: DomainRule) => Covers(rule.domain, host) && !TakenOver(routes, NormalizeHost(rule.domain))
  }

  // Which configurations build

  predicate PoolsParse(parse: UrlParser, pools: seq<LbPool>) {
    forall pool <- pools :: Trim(pool.id) != "" ==> Ring.UpstreamsParse(parse, pool.nodes)
  }

  predicate RulesParse(parse: UrlParser, rules: seq<DomainRule>) {
    forall rule <- rules :: parse(rule.upstream).Some?
  }

  predicate UsesLegacyDefault(cfg: Config) {
    cfg.routing.defaultUpstream != "" && Trim(cfg.loadBalancer.defaultPoolId) == ""
  }

  predicate Builds(parse: UrlParser, cfg: Config) {
    && PoolsParse(parse, cfg.loadBalancer.pools)
    && RulesParse(parse, cfg.routing.domains)
    && (UsesLegacyDefault(cfg) ==> parse(cfg.routing.defaultUpstream).Some?)
  }

  function LegacyRoute(parse: UrlParser, rule: DomainRule): RouteMatch
    requires parse(rule.upstream).Some?
  {
    RouteMatch(NormalizeHost(rule.domain), rule.forceHttps, parse(rule.upstream).value)
  }

  /** The last exact rule, else the first wildcard rule, else the default upstream; rules taken over
      by the load balancer do not count. */
  function LegacyAnswer(parse: UrlParser, cfg: Config, host: string): Answer
    requires Builds(parse, cfg)
  {
    var rules, routes := cfg.routing.domains, cfg.loadBalancer.routes;
    var e := LastIndex(rules, LegacyRuleFor(routes, host));
    var w := FirstIndex(rules, LegacyWildcardFor(routes, host));
    if e >= 0 then Fixed(LegacyRoute(parse, rules[e]))
    else if w >= 0 then Fixed(LegacyRoute(parse, rules[w]))
    else if UsesLegacyDefault(cfg) then
      Fixed(RouteMatch(DEFAULT_LABEL, false, parse(cfg.routing.defaultUpstream).value))
    else NoAnswer
  }

  /** The route of a normalised host, read straight off the configuration. */
  function DirectAnswer(parse: UrlParser, cfg: Config, host: string): Answer
    requires Builds(parse, cfg)
  {
    var a := LbAnswer(cfg.loadBalancer, host);
    if a != NoAnswer then a else LegacyAnswer(parse, cfg, host)
  }
}
