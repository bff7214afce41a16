/** The control plane's load-balancer endpoints as updates of the current configuration. */
module LbAdmin {
  import opened Wrappers
  import opened ConfigTypes
  import opened Prepare
  import opened Seqs
  import opened Text
  import opened Validation
  import Routing
  import Snapshot

  datatype Response = Done | NotFound | BadRequest | Rejected

  predicate IsSlash(c: char) {
    c == '/'
  }

  /** The identifier a request path ends in. */
  function PathTail(tail: string): string {
    Trim(TrimBy(tail, IsSlash))
  }

  function NormalizeDomain(domain: string): string {
    ToLower(Trim(domain))
  }

  function NormalizeStrategy(strategy: string): string {
    if Trim(strategy) == "" then "weighted_rr" else Trim(ToLower(strategy))
  }

  /** Pool identifiers are looked up without regard to case. */
  function FoldKey(pool: LbPool): string {
    ToLower(Trim(pool.id))
  }

  function FoldsTo(fold: string): LbPool -> bool {
    (pool: LbPool) => FoldKey(pool) == fold
  }

  function FindPool(pools: seq<LbPool>, id: string): int {
    FirstIndex(pools, FoldsTo(ToLower(Trim(id))))
  }

  function DomainKey(route: LbRouteRule): string {
    NormalizeDomain(route.domain)
  }

  function ForDomain(domain: string): LbRouteRule -> bool {
    (route: LbRouteRule) => DomainKey(route) == domain
  }

  function FindRoute(routes: seq<LbRouteRule>, domain: string): int {
    FirstIndex(routes, ForDomain(NormalizeDomain(domain)))
  }

  function NotBoundTo(id: string): LbRouteRule -> bool {
    (route: LbRouteRule) => Trim(route.poolId) != id && Trim(route.fallbackPoolId) != id
  }

  // Admission

  predicate RuleClean(parse: UrlParser, rule: DomainRule) {
    Trim(rule.domain) != "" && Trim(rule.upstream) != "" && parse(Trim(rule.upstream)).Some?
  }

  predicate RoutingClean(parse: UrlParser, routing: RoutingConfig) {
    && (forall rule <- routing.domains :: RuleClean(parse, rule))
    && (routing.defaultUpstream != "" ==> parse(routing.defaultUpstream).Some?)
  }

  method ValidateRouting(parse: UrlParser, routing: RoutingConfig) returns (clean: bool)
    ensures clean <==> RoutingClean(parse, routing)
  {
    for n := 0 to |routing.domains|
      invariant forall k :: 0 <= k < n ==> RuleClean(parse, routing.domains[k])
    {
      var rule := routing.domains[n];
      var upstream := Trim(rule.upstream);
      if Trim(rule.domain) == "" || upstream == "" || parse(upstream).None? {
        assert rule in routing.domains;
        return false;
      }
    }
    clean := routing.defaultUpstream == "" || parse(routing.defaultUpstream).Some?;
  }

  /** Validated without an issue, and then compiled. */
  predicate Admissible(parse: UrlParser, cfg: Config) {
    && Accepted(cfg)
    && RoutingClean(parse, Prepared(cfg).routing)
    && LbValid(parse, Prepared(cfg).loadBalancer)
    && Routing.Builds(parse, Prepared(cfg))
  }

  /** A configuration with no legacy rules and a valid balancer is admitted as it stands. */
  lemma ValidIsAdmitted(parse: UrlParser, lb: LoadBalancerConfig)
    requires LbValid(parse, lb)
    ensures Admissible(parse, Config(EMPTY_ROUTING, lb))
    ensures Prepared(Config(EMPTY_ROUTING, lb)) == Config(EMPTY_ROUTING, lb)
  {
    TrimOfNothing();
    ValidCompiles(parse, lb);
    hide Trim, LbValid;
  }

  /** A corollary: without legacy rules only the balancer decides. */
  lemma AdmissibleIffValid(parse: UrlParser, cfg: Config)
    requires cfg.routing == EMPTY_ROUTING
    ensures Admissible(parse, cfg) <==> LbValid(parse, cfg.loadBalancer)
    ensures Prepared(cfg) == cfg
  {
    if LbValid(parse, cfg.loadBalancer) {
      ValidIsAdmitted(parse, cfg.loadBalancer);
    }
    TrimOfNothing();
    hide Trim, LbValid;
  }

  // Candidates: the configuration each request asks for.

  function CreatedPool(payload: LbPool, generatedId: string): LbPool {
    var id := Trim(payload.id);
    payload.(id := if id == "" then generatedId else id, strategy := NormalizeStrategy(payload.strategy))
  }

  function UpdatedPool(id: string, payload: LbPool): LbPool {
    payload.(id := id, strategy := NormalizeStrategy(payload.strategy))
  }

  function StoredRoute(domain: string, payload: LbRouteRule): LbRouteRule {
    payload.(domain := domain, poolId := Trim(payload.poolId), fallbackPoolId := Trim(payload.fallbackPoolId))
  }

  function WithPools(cfg: Config, pools: seq<LbPool>): Config {
    cfg.(loadBalancer := cfg.loadBalancer.(pools := pools))
  }

  function WithRoutes(cfg: Config, routes: seq<LbRouteRule>): Config {
    cfg.(loadBalancer := cfg.loadBalancer.(routes := routes))
  }

  function WithoutPool(lb: LoadBalancerConfig, index: nat, id: string): LoadBalancerConfig
    requires index < |lb.pools|
  {
    LoadBalancerConfig(if EqualFold(Trim(lb.defaultPoolId), id) then "" else lb.defaultPoolId,
                       Without(lb.pools, index),
                       Filter(lb.routes, NotBoundTo(Trim(id))))
  }

  function WithRoute(routes: seq<LbRouteRule>, domain: string, payload: LbRouteRule): seq<LbRouteRule> {
    var i := FindRoute(routes, domain);
    if 0 <= i < |routes| then routes[i := StoredRoute(domain, payload)] else routes + [StoredRoute(domain, payload)]
  }

  /** Removing an element in place: the slice keeps its length and repeats its last element. */
  function ShiftedOver<T>(s: seq<T>, i: nat): seq<T>
    requires i < |s|
  {
    Without(s, i) + [s[|s| - 1]]
  }

  lemma ShiftedOverAt<T>(s: seq<T>, i: nat, j: nat)
    requires i < |s| && j < |s|
    ensures |ShiftedOver(s, i)| == |s|
    ensures ShiftedOver(s, i)[j] == s[if j < i || j == |s| - 1 then j else j + 1]
  {
  }

  /** Which shows unless everything from there on is the same. */
  lemma ShiftedOverShows<T>(s: seq<T>, i: nat)
    requires i < |s|
    ensures ShiftedOver(s, i) == s <==> forall j :: i <= j < |s| ==> s[j] == s[|s| - 1]
  {
    ShiftedOverAt(s, i, i);
    hide ShiftedOver;
    if ShiftedOver(s, i) == s {
      forall j | i <= j < |s| ensures s[j] == s[|s| - 1] {
        SameToTheEnd(s, i, j);
      }
    }
    if forall j :: i <= j < |s| ==> s[j] == s[|s| - 1] {
      forall j | 0 <= j < |s| ensures ShiftedOver(s, i)[j] == s[j] {
        ShiftedOverAt(s, i, j);
      }
    }
  }

  lemma {:induction false} SameToTheEnd<T>(s: seq<T>, i: nat, j: nat)
    requires i <= j < |s| && ShiftedOver(s, i) == s
    ensures s[j] == s[|s| - 1]
    decreases |s| - j
  {
    ShiftedOverAt(s, i, j);
    if j < |s| - 1 {
      SameToTheEnd(s, i, j + 1);
    }
  }

  method FindPoolIndex(pools: seq<LbPool>, id: string) returns (index: int)
    ensures index == FindPool(pools, id)
  {
    var target := Trim(id);
    FirstIndexIsFirst(pools, FoldsTo(ToLower(target)));
    for n := 0 to |pools|
      invariant forall k :: 0 <= k < n ==> !FoldsTo(ToLower(target))(pools[k])
    {
      if EqualFold(Trim(pools[n].id), target) {
        assert FoldsTo(ToLower(target))(pools[n]);
        return n;
      }
    }
    return -1;
  }

  method RemoveRoutesByPoolId(routes: seq<LbRouteRule>, id: string) returns (filtered: seq<LbRouteRule>)
    ensures filtered == Filter(routes, NotBoundTo(Trim(id)))
  {
    filtered := [];
    var target := Trim(id);
    for n := 0 to |routes|
      invariant filtered == Filter(routes[..n], NotBoundTo(target))
    {
      TakeSnoc(routes, n);
      FrontOfSnoc(routes[..n], routes[n]);
      if Trim(routes[n].poolId) == target || Trim(routes[n].fallbackPoolId) == target {
        continue;
      }
      filtered := filtered + [routes[n]];
    }
    TakeAll(routes);
  }

  /** One request's answer, and the balancer in force once it is given. */
  datatype Exchange = Exchange(response: Response, after: LoadBalancerConfig)

  class Server {
    const parse: UrlParser
    var current: Config
    ghost var log: seq<Exchange>

    constructor (parse: UrlParser, current: Config)
      ensures this.parse == parse && this.current == current && log == []
    {
      this.parse, this.current, log := parse, current, [];
    }

    method ApplyLbConfig(cfg: Config) returns (ok: bool)
      modifies this`current
      ensures ok <==> Admissible(parse, cfg)
      ensures current == if ok then Prepared(cfg) else old(current)
    {
      var prepared, conflicts := PrepareRoutingAndLoadBalancer(cfg);
      var clean := ValidateRouting(parse, prepared.routing);
      var issues := ValidateLoadBalancerConfig(parse, prepared.loadBalancer);
      CleanIffValid(parse, prepared.loadBalancer);
      if |conflicts| > 0 || !clean || |issues| > 0 {
        return false;
      }
      var next := Snapshot.BuildSnapshot(parse, prepared);
      if next.None? {
        return false;
      }
      current := prepared;
      return true;
    }

    method CreatePool(payload: LbPool, generatedId: string) returns (resp: Response)
      modifies this
      ensures log == old(log) + [Exchange(resp, current.loadBalancer)]
      ensures var wanted := WithPools(old(current), old(current).loadBalancer.pools + [CreatedPool(payload, generatedId)]);
              && (resp == Done <==> Admissible(parse, wanted))
              && current == (if resp == Done then Prepared(wanted) else old(current))
    {
      var pools := current.loadBalancer.pools + [CreatedPool(payload, generatedId)];
      var ok := ApplyLbConfig(WithPools(current, pools));
      resp := if ok then Done else Rejected;
      log := log + [Exchange(resp, current.loadBalancer)];
    }

    /** The payload is written into the current configuration's own slice before it is validated, so a
        rejected update still shows there. */
    method UpdatePool(tail: string, payload: LbPool) returns (resp: Response)
      modifies this
      ensures log == old(log) + [Exchange(resp, current.loadBalancer)]
      ensures var id, pools := PathTail(tail), old(current).loadBalancer.pools;
              var i := FindPool(pools, id);
              if id == "" then resp == BadRequest && current == old(current)
              else if i < 0 then resp == NotFound && current == old(current)
              else
                && i < |pools|
                && var wanted := WithPools(old(current), pools[i := UpdatedPool(id, payload)]);
                   && (resp == Done <==> Admissible(parse, wanted))
                   && current == (if resp == Done then Prepared(wanted) else wanted)
                   && (resp == Rejected ==> (current == old(current) <==> pools[i] == UpdatedPool(id, payload)))
      ensures old(current).routing == EMPTY_ROUTING && resp == Rejected ==> !LbValid(parse, current.loadBalancer)
    {
      var id := PathTail(tail);
      if id == "" {
        resp := BadRequest;
        log := log + [Exchange(resp, current.loadBalancer)];
        return;
      }
      var index := FindPoolIndex(current.loadBalancer.pools, id);
      if index < 0 {
        resp := NotFound;
        log := log + [Exchange(resp, current.loadBalancer)];
        return;
      }
      ghost var pools := current.loadBalancer.pools;
      current := WithPools(current, current.loadBalancer.pools[index := UpdatedPool(id, payload)]);
      assert current.loadBalancer.pools[index] == UpdatedPool(id, payload);
      assert pools[index := pools[index]] == pools;
      if current.routing == EMPTY_ROUTING {
        AdmissibleIffValid(parse, current);
      }
      hide Admissible, Prepared, PathTail, FindPool, LbValid, UpdatedPool;
      var ok := ApplyLbConfig(current);
      resp := if ok then Done else Rejected;
      log := log + [Exchange(resp, current.loadBalancer)];
    }

    method DeletePool(tail: string) returns (resp: Response)
      modifies this
      ensures log == old(log) + [Exchange(resp, current.loadBalancer)]
      ensures var id, lb := PathTail(tail), old(current).loadBalancer;
              var i := FindPool(lb.pools, id);
              if id == "" then resp == BadRequest && current == old(current)
              else if i < 0 then resp == NotFound && current == old(current)
              else
                && i < |lb.pools|
                && var wanted := old(current).(loadBalancer := WithoutPool(lb, i, id));
                   && (resp == Done <==> Admissible(parse, wanted))
                   && current == (if resp == Done then Prepared(wanted)
                                  else WithPools(old(current), ShiftedOver(lb.pools, i)))
                   && (resp == Rejected ==>
                         (current == old(current) <==> forall j :: i <= j < |lb.pools| ==> lb.pools[j] == lb.pools[|lb.pools| - 1]))
    {
      var id := PathTail(tail);
      if id == "" {
        resp := BadRequest;
        log := log + [Exchange(resp, current.loadBalancer)];
        return;
      }
      var lb := current.loadBalancer;
      var index := FindPoolIndex(lb.pools, id);
      if index < 0 {
        resp := NotFound;
        log := log + [Exchange(resp, current.loadBalancer)];
        return;
      }
      var routes := RemoveRoutesByPoolId(lb.routes, id);
      var defaultPoolId := if EqualFold(Trim(lb.defaultPoolId), id) then "" else lb.defaultPoolId;
      var wanted := current.(loadBalancer := LoadBalancerConfig(defaultPoolId, Without(lb.pools, index), routes));
      ShiftedOverShows(lb.pools, index);
      hide Admissible, Prepared, PathTail, FindPool, ShiftedOver, Without;
      current := WithPools(current, ShiftedOver(lb.pools, index));
      var ok := ApplyLbConfig(wanted);
      resp := if ok then Done else Rejected;
      log := log + [Exchange(resp, current.loadBalancer)];
    }

    method UpsertRoute(tail: string, payload: LbRouteRule) returns (resp: Response)
      modifies this
      ensures log == old(log) + [Exchange(resp, current.loadBalancer)]
      ensures var domain, routes := NormalizeDomain(PathTail(tail)), old(current).loadBalancer.routes;
              if domain == "" then resp == BadRequest && current == old(current)
              else
                var wanted := WithRoutes(old(current), WithRoute(routes, domain, payload));
                && (resp == Done <==> Admissible(parse, wanted))
                && current == (if resp == Done then Prepared(wanted)
                               else if FindRoute(routes, domain) >= 0 then wanted else old(current))
                && (resp == Rejected ==>
                      var i := FindRoute(routes, domain);
                      && i < |routes|
                      && (current == old(current) <==> i < 0 || routes[i] == StoredRoute(domain, payload)))
      ensures old(current).routing == EMPTY_ROUTING && resp == Rejected &&
              FindRoute(old(current).loadBalancer.routes, NormalizeDomain(PathTail(tail))) >= 0 ==>
                !LbValid(parse, current.loadBalancer)
    {
      var domain := NormalizeDomain(PathTail(tail));
      if domain == "" {
        resp := BadRequest;
        log := log + [Exchange(resp, current.loadBalancer)];
        return;
      }
      var routes := current.loadBalancer.routes;
      var wanted := WithRoutes(current, WithRoute(routes, domain, payload));
      if wanted.routing == EMPTY_ROUTING {
        AdmissibleIffValid(parse, wanted);
      }
      if FindRoute(routes, domain) >= 0 {
        assert WithRoute(routes, domain, payload)[FindRoute(routes, domain)] == StoredRoute(domain, payload);
        assert routes[FindRoute(routes, domain) := routes[FindRoute(routes, domain)]] == routes;
      }
      hide Admissible, Prepared, PathTail, NormalizeDomain, FindRoute, LbValid, StoredRoute;
      if FindRoute(routes, domain) >= 0 {
        current := wanted;
      }
      var ok := ApplyLbConfig(wanted);
      resp := if ok then Done else Rejected;
      log := log + [Exchange(resp, current.loadBalancer)];
    }

    method DeleteRoute(tail: string) returns (resp: Response)
      modifies this
      ensures log == old(log) + [Exchange(resp, current.loadBalancer)]
      ensures var domain, routes := NormalizeDomain(PathTail(tail)), old(current).loadBalancer.routes;
              var i := FindRoute(routes, domain);
              if domain == "" then resp == BadRequest && current == old(current)
              else if i < 0 then resp == NotFound && current == old(current)
              else
                && i < |routes|
                && var wanted := WithRoutes(old(current), Without(routes, i));
                   && (resp == Done <==> Admissible(parse, wanted))
                   && current == (if resp == Done then Prepared(wanted)
                                  else WithRoutes(old(current), ShiftedOver(routes, i)))
                   && (resp == Rejected ==>
                         (current == old(current) <==> forall j :: i <= j < |routes| ==> routes[j] == routes[|routes| - 1]))
    {
      var domain := NormalizeDomain(PathTail(tail));
      if domain == "" {
        resp := BadRequest;
        log := log + [Exchange(resp, current.loadBalancer)];
        return;
      }
      var routes := current.loadBalancer.routes;
      var index := FindRoute(routes, domain);
      if index < 0 {
        resp := NotFound;
        log := log + [Exchange(resp, current.loadBalancer)];
        return;
      }
      var wanted := WithRoutes(current, Without(routes, index));
      ShiftedOverShows(routes, index);
      hide Admissible, Prepared, PathTail, NormalizeDomain, FindRoute, ShiftedOver, Without;
      current := WithRoutes(current, ShiftedOver(routes, index));
      var ok := ApplyLbConfig(wanted);
      resp := if ok then Done else Rejected;
      log := log + [Exchange(resp, current.loadBalancer)];
    }
  }
}
