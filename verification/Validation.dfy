/** The validation that guards every load-balancer update. */
module Validation {
  import opened Wrappers
  import opened ConfigTypes
  import opened Seqs
  import opened Text
  import Routing
  import Ring

  datatype Issue =
    | PoolIdRequired(pool: nat)
    | PoolIdDuplicated(pool: nat, previous: int)
    | NodeIdRequired(pool: nat, node: nat)
    | NodeIdDuplicated(pool: nat, node: nat, previous: int)
    | UpstreamRequired(pool: nat, node: nat)
    | UpstreamInvalid(pool: nat, node: nat)
    | WeightNotPositive(pool: nat, node: nat)
    | DefaultPoolUnknown
    | DomainRequired(route: nat)
    | RoutePoolRequired(route: nat)
    | RoutePoolUnknown(route: nat)
    | FallbackPoolUnknown(route: nat)

  // The issues one element contributes.

  function OneIf(condition: bool, issue: Issue): seq<Issue> {
    if condition then [issue] else []
  }

  function HasNodeId(id: string): LbNode -> bool {
    (node: LbNode) => Trim(node.id) == id
  }

  function NodeIssues(parse: UrlParser, pool: nat, before: seq<LbNode>, node: LbNode): seq<Issue> {
    var id, upstream := Trim(node.id), Trim(node.upstream);
    var previous := LastIndex(before, HasNodeId(id));
    OneIf(id == "", NodeIdRequired(pool, |before|))
    + OneIf(id != "" && previous >= 0, NodeIdDuplicated(pool, |before|, previous))
    + OneIf(upstream == "", UpstreamRequired(pool, |before|))
    + OneIf(upstream != "" && parse(upstream).None?, UpstreamInvalid(pool, |before|))
    + OneIf(node.weight <= 0, WeightNotPositive(pool, |before|))
  }

  function NodesIssues(parse: UrlParser, pool: nat, nodes: seq<LbNode>): seq<Issue> {
    if nodes == [] then []
    else
      var k := |nodes| - 1;
      NodesIssues(parse, pool, nodes[..k]) + NodeIssues(parse, pool, nodes[..k], nodes[k])
  }

  function PoolIssues(parse: UrlParser, before: seq<LbPool>, pool: LbPool): seq<Issue> {
    var id := Trim(pool.id);
    var previous := Routing.LastPool(before, id);
    if id == "" then [PoolIdRequired(|before|)]
    else OneIf(previous >= 0, PoolIdDuplicated(|before|, previous)) + NodesIssues(parse, |before|, pool.nodes)
  }

  function PoolsIssues(parse: UrlParser, pools: seq<LbPool>): seq<Issue> {
    if pools == [] then []
    else
      var k := |pools| - 1;
      PoolsIssues(parse, pools[..k]) + PoolIssues(parse, pools[..k], pools[k])
  }

  /** The identifiers a route may name. */
  function PoolIds(pools: seq<LbPool>): set<string> {
    set pool <- pools | Trim(pool.id) != "" :: Trim(pool.id)
  }

  function RouteIssues(ids: set<string>, index: nat, route: LbRouteRule): seq<Issue> {
    var poolId, fallbackId := Trim(route.poolId), Trim(route.fallbackPoolId);
    OneIf(Trim(route.domain) == "", DomainRequired(index))
    + OneIf(poolId == "", RoutePoolRequired(index))
    + OneIf(poolId != "" && poolId !in ids, RoutePoolUnknown(index))
    + OneIf(fallbackId != "" && fallbackId !in ids, FallbackPoolUnknown(index))
  }

  function RoutesIssues(ids: set<string>, routes: seq<LbRouteRule>): seq<Issue> {
    if routes == [] then []
    else
      var k := |routes| - 1;
      RoutesIssues(ids, routes[..k]) + RouteIssues(ids, k, routes[k])
  }

  function LbIssues(parse: UrlParser, lb: LoadBalancerConfig): seq<Issue> {
    PoolsIssues(parse, lb.pools)
    + OneIf(lb.defaultPoolId != "" && Trim(lb.defaultPoolId) !in PoolIds(lb.pools), DefaultPoolUnknown)
    + RoutesIssues(PoolIds(lb.pools), lb.routes)
  }

  // The index maps of the source remember the last position of each identifier.

  function LastSeen(index: map<string, nat>, id: string): int {
    if id in index then index[id] else -1
  }

  ghost predicate NodesSeen(index: map<string, nat>, nodes: seq<LbNode>) {
    forall id :: LastSeen(index, id) == LastIndex(nodes, HasNodeId(id))
  }

  ghost predicate PoolsSeen(index: map<string, nat>, pools: seq<LbPool>) {
    forall id :: id != "" ==> LastSeen(index, id) == Routing.LastPool(pools, id)
  }

  lemma NodeSeen(index: map<string, nat>, before: seq<LbNode>, node: LbNode)
    requires NodesSeen(index, before)
    ensures NodesSeen(index[Trim(node.id) := |before|], before + [node])
  {
    hide Trim;
    var after, all := index[Trim(node.id) := |before|], before + [node];
    FrontOfSnoc(before, node);
    forall id ensures LastSeen(after, id) == LastIndex(all, HasNodeId(id)) {
      assert LastSeen(index, id) == LastIndex(before, HasNodeId(id));
    }
  }

  lemma PoolSeen(index: map<string, nat>, before: seq<LbPool>, pool: LbPool)
    requires PoolsSeen(index, before)
    ensures PoolsSeen(if Trim(pool.id) == "" then index else index[Trim(pool.id) := |before|], before + [pool])
  {
    hide Trim;
    var after, all := if Trim(pool.id) == "" then index else index[Trim(pool.id) := |before|], before + [pool];
    FrontOfSnoc(before, pool);
    forall id | id != "" ensures LastSeen(after, id) == Routing.LastPool(all, id) {
      assert LastSeen(index, id) == Routing.LastPool(before, id);
    }
  }

  method ValidateNode(parse: UrlParser, pool: nat, n: nat, node: LbNode, nodeIndex: map<string, nat>,
                      ghost before: seq<LbNode>)
    returns (r: seq<Issue>)
    requires n == |before| && NodesSeen(nodeIndex, before)
    ensures r == NodeIssues(parse, pool, before, node)
  {
    hide Trim;
    r := [];
    var nodeId := Trim(node.id);
    assert LastSeen(nodeIndex, nodeId) == LastIndex(before, HasNodeId(nodeId));
    if nodeId == "" {
      r := r + [NodeIdRequired(pool, n)];
    } else if nodeId in nodeIndex {
      r := r + [NodeIdDuplicated(pool, n, nodeIndex[nodeId])];
    }
    var upstream := Trim(node.upstream);
    if upstream == "" {
      r := r + [UpstreamRequired(pool, n)];
    } else if parse(upstream).None? {
      r := r + [UpstreamInvalid(pool, n)];
    }
    if node.weight <= 0 {
      r := r + [WeightNotPositive(pool, n)];
    }
  }

  method ValidateLoadBalancerPoolNodes(parse: UrlParser, pool: nat, nodes: seq<LbNode>) returns (issues: seq<Issue>)
    ensures issues == NodesIssues(parse, pool, nodes)
  {
    hide Trim, NodesSeen, NodeIssues;
    issues := [];
    var nodeIndex: map<string, nat> := map[];
    assert NodesSeen(nodeIndex, []) by { NothingSeen(); }
    for n := 0 to |nodes|
      invariant issues == NodesIssues(parse, pool, nodes[..n])
      invariant NodesSeen(nodeIndex, nodes[..n])
    {
      TakeSnoc(nodes, n);
      FrontOfSnoc(nodes[..n], nodes[n]);
      var found := ValidateNode(parse, pool, n, nodes[n], nodeIndex, nodes[..n]);
      issues := issues + found;
      NodeSeen(nodeIndex, nodes[..n], nodes[n]);
      nodeIndex := nodeIndex[Trim(nodes[n].id) := n];
    }
    TakeAll(nodes);
  }

  lemma NothingSeen()
    ensures NodesSeen(map[], []) && PoolsSeen(map[], [])
  {
  }

  lemma NoPoolsNoIssues(parse: UrlParser)
    ensures PoolsIssues(parse, []) == [] && PoolIds([]) == {}
  {
  }

  lemma PoolsIssuesSnoc(parse: UrlParser, front: seq<LbPool>, pool: LbPool)
    ensures PoolsIssues(parse, front + [pool]) == PoolsIssues(parse, front) + PoolIssues(parse, front, pool)
  {
    FrontOfSnoc(front, pool);
    hide PoolIssues;
  }

  method ValidatePools(parse: UrlParser, pools: seq<LbPool>) returns (issues: seq<Issue>, poolIndex: map<string, nat>)
    ensures issues == PoolsIssues(parse, pools)
    ensures poolIndex.Keys == PoolIds(pools)
  {
    hide Trim, PoolsSeen, PoolIds, NodesIssues, Routing.LastPool;
    issues, poolIndex := [], map[];
    assert PoolsIssues(parse, []) == [] && PoolIds([]) == {} by { NoPoolsNoIssues(parse); }
    assert PoolsSeen(poolIndex, []) by { NothingSeen(); }
    for n := 0 to |pools|
      invariant issues == PoolsIssues(parse, pools[..n])
      invariant PoolsSeen(poolIndex, pools[..n])
      invariant poolIndex.Keys == PoolIds(pools[..n])
    {
      TakeSnoc(pools, n);
      PoolsIssuesSnoc(parse, pools[..n], pools[n]);
      PoolSeen(poolIndex, pools[..n], pools[n]);
      PoolIdsSnoc(pools[..n], pools[n]);
      hide PoolsIssues;
      var pool := pools[n];
      var poolId := Trim(pool.id);
      if poolId == "" {
        issues := issues + [PoolIdRequired(n)];
        continue;
      }
      SeenAt(poolIndex, pools[..n], poolId);
      var found: seq<Issue> := [];
      if poolId in poolIndex {
        found := [PoolIdDuplicated(n, poolIndex[poolId])];
      }
      poolIndex := poolIndex[poolId := n];
      var nodeIssues := ValidateLoadBalancerPoolNodes(parse, n, pool.nodes);
      issues := issues + (found + nodeIssues);
    }
    TakeAll(pools);
  }

  lemma SeenAt(index: map<string, nat>, pools: seq<LbPool>, id: string)
    requires PoolsSeen(index, pools) && id != ""
    ensures LastSeen(index, id) == Routing.LastPool(pools, id)
  {
  }

  lemma PoolIdsSnoc(pools: seq<LbPool>, pool: LbPool)
    ensures PoolIds(pools + [pool]) == PoolIds(pools) + (if Trim(pool.id) == "" then {} else {Trim(pool.id)})
  {
    hide Trim;
    assert pool in pools + [pool];
    assert forall p <- pools :: p in pools + [pool];
  }

  method ValidateLoadBalancerConfig(parse: UrlParser, lb: LoadBalancerConfig) returns (issues: seq<Issue>)
    ensures issues == LbIssues(parse, lb)
  {
    hide Trim, PoolsIssues, PoolIds, RouteIssues;
    var poolIndex;
    issues, poolIndex := ValidatePools(parse, lb.pools);
    if lb.defaultPoolId != "" && Trim(lb.defaultPoolId) !in poolIndex {
      issues := issues + [DefaultPoolUnknown];
    }
    var routeIssues: seq<Issue> := [];
    for n := 0 to |lb.routes|
      invariant routeIssues == RoutesIssues(PoolIds(lb.pools), lb.routes[..n])
    {
      TakeSnoc(lb.routes, n);
      FrontOfSnoc(lb.routes[..n], lb.routes[n]);
      var found := ValidateRoute(poolIndex, n, lb.routes[n]);
      routeIssues := routeIssues + found;
    }
    TakeAll(lb.routes);
    issues := issues + routeIssues;
  }

  method ValidateRoute(poolIndex: map<string, nat>, n: nat, route: LbRouteRule) returns (r: seq<Issue>)
    ensures r == RouteIssues(poolIndex.Keys, n, route)
  {
    hide Trim;
    r := [];
    if Trim(route.domain) == "" {
      r := r + [DomainRequired(n)];
    }
    var poolId := Trim(route.poolId);
    if poolId == "" {
      r := r + [RoutePoolRequired(n)];
    } else if poolId !in poolIndex {
      r := r + [RoutePoolUnknown(n)];
    }
    var fallbackId := Trim(route.fallbackPoolId);
    if fallbackId != "" {
      if fallbackId !in poolIndex {
        r := r + [FallbackPoolUnknown(n)];
      }
    }
  }

  // What a clean validation means.

  predicate NodeValid(parse: UrlParser, node: LbNode) {
    && Trim(node.id) != ""
    && Trim(node.upstream) != "" && parse(Trim(node.upstream)).Some?
    && node.weight > 0
  }

  function NodeKey(node: LbNode): string {
    Trim(node.id)
  }

  function PoolKey(pool: LbPool): string {
    Trim(pool.id)
  }

  predicate NodesValid(parse: UrlParser, nodes: seq<LbNode>) {
    && (forall node <- nodes :: NodeValid(parse, node))
    && Distinct(nodes, NodeKey)
  }

  predicate PoolValid(parse: UrlParser, pool: LbPool) {
    Trim(pool.id) != "" && NodesValid(parse, pool.nodes)
  }

  predicate PoolsValid(parse: UrlParser, pools: seq<LbPool>) {
    && (forall pool <- pools :: PoolValid(parse, pool))
    && Distinct(pools, PoolKey)
  }

  predicate RouteValid(ids: set<string>, route: LbRouteRule) {
    && Trim(route.domain) != ""
    && Trim(route.poolId) in ids
    && (Trim(route.fallbackPoolId) == "" || Trim(route.fallbackPoolId) in ids)
  }

  predicate DefaultValid(ids: set<string>, defaultPoolId: string) {
    defaultPoolId == "" || Trim(defaultPoolId) in ids
  }

  predicate LbValid(parse: UrlParser, lb: LoadBalancerConfig) {
    && PoolsValid(parse, lb.pools)
    && DefaultValid(PoolIds(lb.pools), lb.defaultPoolId)
    && (forall route <- lb.routes :: RouteValid(PoolIds(lb.pools), route))
  }

  lemma {:induction false} NodesCleanIffValid(parse: UrlParser, pool: nat, nodes: seq<LbNode>)
    ensures NodesIssues(parse, pool, nodes) == [] <==> NodesValid(parse, nodes)
  {
    hide Trim, Distinct, NodeValid, NodeIssues;
    if nodes == [] {
      assert Distinct(nodes, NodeKey) by { NothingIsDistinct(nodes, NodeKey); }
    } else {
      var k := |nodes| - 1;
      var front, last := nodes[..k], nodes[k];
      NodesCleanIffValid(parse, pool, front);
      NodeCleanIff(parse, pool, front, last);
      DistinctSnoc(front, last, NodeKey);
      assert nodes == front + [last];
    }
  }

  lemma NodeCleanIff(parse: UrlParser, pool: nat, front: seq<LbNode>, last: LbNode)
    ensures NodeIssues(parse, pool, front, last) == [] <==>
            NodeValid(parse, last) && forall node <- front :: NodeKey(node) != NodeKey(last)
  {
    var p := HasNodeId(Trim(last.id));
    FoundIffPresent(front, p);
    hide Trim, LastIndex;
    assert forall node <- front :: p(node) <==> NodeKey(node) == NodeKey(last);
    assert NodeIssues(parse, pool, front, last) == [] <==> |NodeIssues(parse, pool, front, last)| == 0;
  }

  lemma {:induction false} PoolsCleanIffValid(parse: UrlParser, pools: seq<LbPool>)
    ensures PoolsIssues(parse, pools) == [] <==> PoolsValid(parse, pools)
  {
    hide Trim, Distinct, PoolValid, PoolIssues;
    if pools == [] {
      assert Distinct(pools, PoolKey) by { NothingIsDistinct(pools, PoolKey); }
    } else {
      var k := |pools| - 1;
      var front, last := pools[..k], pools[k];
      PoolsCleanIffValid(parse, front);
      PoolCleanIff(parse, front, last);
      DistinctSnoc(front, last, PoolKey);
      assert pools == front + [last];
    }
  }

  lemma PoolCleanIff(parse: UrlParser, front: seq<LbPool>, last: LbPool)
    ensures PoolIssues(parse, front, last) == [] <==>
            PoolValid(parse, last) && forall pool <- front :: PoolKey(pool) != PoolKey(last)
  {
    NodesCleanIffValid(parse, |front|, last.nodes);
    var p := Routing.HasId(Trim(last.id));
    FoundIffPresent(front, p);
    hide Trim, NodesIssues, NodesValid, LastIndex;
    assert forall pool <- front :: p(pool) <==> PoolKey(pool) == PoolKey(last);
    assert PoolIssues(parse, front, last) == [] <==> |PoolIssues(parse, front, last)| == 0;
  }

  lemma NothingIsDistinct<T>(s: seq<T>, key: T -> string)
    requires s == []
    ensures Distinct(s, key)
  {
  }

  lemma RouteCleanIff(ids: set<string>, index: nat, route: LbRouteRule)
    requires "" !in ids
    ensures RouteIssues(ids, index, route) == [] <==> RouteValid(ids, route)
  {
    hide Trim;
    assert RouteIssues(ids, index, route) == [] <==> |RouteIssues(ids, index, route)| == 0;
  }

  lemma {:induction false} RoutesCleanIffValid(ids: set<string>, routes: seq<LbRouteRule>)
    requires "" !in ids
    ensures RoutesIssues(ids, routes) == [] <==> forall route <- routes :: RouteValid(ids, route)
  {
    hide Trim, RouteIssues, RouteValid;
    if routes != [] {
      var k := |routes| - 1;
      RoutesCleanIffValid(ids, routes[..k]);
      RouteCleanIff(ids, k, routes[k]);
      assert routes == routes[..k] + [routes[k]];
    }
  }

  /** Validation raises no issue exactly for well-formed balancers: named pools with distinct ids and
      sound nodes, and routes and default that name existing pools. */
  lemma CleanIffValid(parse: UrlParser, lb: LoadBalancerConfig)
    ensures LbIssues(parse, lb) == [] <==> LbValid(parse, lb)
  {
    PoolsCleanIffValid(parse, lb.pools);
    RoutesCleanIffValid(PoolIds(lb.pools), lb.routes);
    hide Trim, PoolsIssues, PoolsValid, RoutesIssues, RouteValid, PoolIds;
  }

  /** A corollary: a valid balancer always compiles. */
  lemma ValidCompiles(parse: UrlParser, lb: LoadBalancerConfig)
    requires LbValid(parse, lb)
    ensures Routing.Builds(parse, Config(EMPTY_ROUTING, lb))
  {
    hide Trim, PoolIds, RouteValid;
    forall pool | pool in lb.pools ensures Ring.UpstreamsParse(parse, pool.nodes) {
      assert PoolValid(parse, pool);
    }
  }
}
