/** The console's save: a plan of create, update, upsert and delete requests that turns the server's
    pools and routes into the draft's. */
module Reconcile {
  import opened Wrappers
  import opened ConfigTypes
  import opened LbAdmin
  import opened PlanSteps
  import opened Prepare
  import opened Seqs
  import opened Text
  import opened Validation

  datatype Outcome = Saved | DraftInvalid | RequestFailed

  // The draft as the console normalises it before sending.

  function TrimmedNode(node: LbNode): LbNode {
    node.(id := Trim(node.id), upstream := Trim(node.upstream))
  }

  function TrimmedPool(pool: LbPool): LbPool {
    LbPool(Trim(pool.id), Trim(pool.name), if pool.strategy == "" then "weighted_rr" else pool.strategy,
           seq(|pool.nodes|, i requires 0 <= i < |pool.nodes| => TrimmedNode(pool.nodes[i])))
  }

  function TrimmedRoute(route: LbRouteRule): LbRouteRule {
    LbRouteRule(Trim(route.domain), Trim(route.poolId), Trim(route.fallbackPoolId), route.forceHttps)
  }

  function TrimmedPools(pools: seq<LbPool>): seq<LbPool> {
    seq(|pools|, i requires 0 <= i < |pools| => TrimmedPool(pools[i]))
  }

  function TrimmedRoutes(routes: seq<LbRouteRule>): seq<LbRouteRule> {
    seq(|routes|, i requires 0 <= i < |routes| => TrimmedRoute(routes[i]))
  }

  /** The console's own checks on the normalised draft. */
  predicate PoolFilled(pool: LbPool) {
    && pool.id != "" && pool.name != ""
    && (forall node <- pool.nodes :: node.id != "" && node.upstream != "" && node.weight > 0)
  }

  predicate RouteFilled(ids: set<string>, route: LbRouteRule) {
    && route.domain != "" && route.poolId != "" && route.poolId in ids
    && (route.fallbackPoolId == "" || route.fallbackPoolId in ids)
  }

  function DraftIds(pools: seq<LbPool>): set<string> {
    set pool <- pools | pool.id != "" :: pool.id
  }

  predicate DraftFilled(pools: seq<LbPool>, routes: seq<LbRouteRule>) {
    && (forall pool <- pools :: PoolFilled(pool))
    && (forall route <- routes :: RouteFilled(DraftIds(pools), route))
  }

  // What a save needs, and what decides whether it ends with the draft

  predicate DomainSafe(route: LbRouteRule) {
    PathSafe(route.domain) && DomainKey(route) == route.domain
  }

  /** A well-formed draft, and a valid server whose domains are normalised and apart. */
  predicate Pushable(parse: UrlParser, lb: LoadBalancerConfig, pools: seq<LbPool>, routes: seq<LbRouteRule>) {
    && LbValid(parse, lb)
    && Distinct(lb.routes, DomainKey)
    && (forall route <- lb.routes :: DomainSafe(route))
    && (forall id <- PoolIds(lb.pools) :: PathSafe(id))
    && DraftFilled(pools, routes)
    && PoolsValid(parse, pools)
    && (forall route <- routes :: PathSafe(route.domain))
  }

  /** No pool that the server has and the draft keeps shares its identifier, up to case, with another of the
      server's. */
  predicate KeepsPools(lb: LoadBalancerConfig, pools: seq<LbPool>) {
    forall a <- PoolIds(lb.pools), b <- PoolIds(lb.pools) :: a in DraftIds(pools) && EqualFold(a, b) ==> a == b
  }

  function Domains(routes: seq<LbRouteRule>): set<string> {
    set route <- routes :: route.domain
  }

  /** A domain of the server that a drafted route normalises to is drafted in that spelling too. */
  predicate KeepsRoutes(lb: LoadBalancerConfig, routes: seq<LbRouteRule>) {
    forall route <- routes :: DomainKey(route) in Domains(lb.routes) ==> DomainKey(route) in Domains(routes)
  }

  // The plan

  /** Every request was accepted, and left a valid balancer in force. */
  ghost predicate AllAccepted(parse: UrlParser, exchanges: seq<Exchange>) {
    forall x <- exchanges :: x.response == Done && LbValid(parse, x.after)
  }

  /** These are the keys of the server's pools, in order. */
  ghost predicate IsOrderOf(order: seq<string>, pools: seq<LbPool>) {
    && NoRepeats(order) && |order| == |pools|
    && forall j :: 0 <= j < |pools| ==> order[j] == PoolKey(pools[j])
  }

  ghost predicate PoolsReady(parse: UrlParser, lb: LoadBalancerConfig, pools: seq<LbPool>, order: seq<string>) {
    && LbValid(parse, lb) && IsOrderOf(order, lb.pools)
    && PoolsValid(parse, pools)
    && (forall pool <- pools :: Trim(pool.id) == pool.id)
    && (forall id <- order :: PathSafe(id))
  }

  ghost predicate PoolsPushed(parse: UrlParser, lb0: LoadBalancerConfig, pools: seq<LbPool>, order: seq<string>,
                              lb: LoadBalancerConfig) {
    && LbValid(parse, lb)
    && lb.routes == lb0.routes && lb.defaultPoolId == lb0.defaultPoolId
    && Table(lb.pools, PoolKey) == Table(lb0.pools, PoolKey) + Table(StoredPools(pools), PoolKey)
    && InOrder(lb.pools, order)
  }

  /** The identifier is in the order, after another that differs from it only in case. */
  predicate EarlierTwin(order: seq<string>, id: string) {
    exists m, j :: 0 <= m < j < |order| && order[j] == id && EqualFold(order[m], id)
  }

  lemma OrderIsIds(parse: UrlParser, lb: LoadBalancerConfig, order: seq<string>)
    requires LbValid(parse, lb) && IsOrderOf(order, lb.pools)
    ensures forall id :: id in order <==> id in PoolIds(lb.pools)
  {
    PoolIdsExactly(parse, lb.pools);
    assert forall j :: 0 <= j < |order| ==> order[j] == PoolKey(lb.pools[j]);
    hide LbValid, PoolIds, PoolKey, IsOrderOf;
    forall id | id in order ensures id in PoolIds(lb.pools) {
      var j :| 0 <= j < |order| && order[j] == id;
      assert lb.pools[j] in lb.pools;
    }
    forall id | id in PoolIds(lb.pools) ensures id in order {
      var j :| 0 <= j < |lb.pools| && PoolKey(lb.pools[j]) == id;
      assert order[j] == id;
    }
  }

  lemma PoolIdsExactly(parse: UrlParser, pools: seq<LbPool>)
    requires PoolsValid(parse, pools)
    ensures forall id :: id in PoolIds(pools) <==> exists pool <- pools :: PoolKey(pool) == id
  {
    hide Trim, NodesValid, Distinct;
    assert forall pool <- pools :: PoolValid(parse, pool);
  }

  /** Among pools that hold all ranked identifiers, the twins are those of the order. */
  lemma TwinsOfTheOrder(pools: seq<LbPool>, order: seq<string>, j: nat)
    requires NoRepeats(order) && j < |order|
    requires forall id <- order :: exists pool <- pools :: PoolKey(pool) == id
    ensures HasEarlierTwin(pools, order, j) <==> EarlierTwin(order, order[j])
  {
    hide EqualFold, PoolKey, Rank;
    if HasEarlierTwin(pools, order, j) {
      var pool :| pool in pools && Rank(order, PoolKey(pool)) < j && EqualFold(PoolKey(pool), order[j]);
      assert order[Rank(order, PoolKey(pool))] == PoolKey(pool);
    }
    if EarlierTwin(order, order[j]) {
      var m, k :| 0 <= m < k < |order| && order[k] == order[j] && EqualFold(order[m], order[j]);
      assert order[m] in order;
      RankAt(order, m);
      var pool :| pool in pools && PoolKey(pool) == order[m];
    }
  }

  lemma StoredSnoc(pools: seq<LbPool>, pool: LbPool)
    requires Trim(pool.id) == pool.id
    ensures Table(StoredPools(pools + [pool]), PoolKey) == Table(StoredPools(pools), PoolKey)[pool.id := StoredPool(pool)]
  {
    hide Trim, NormalizeStrategy;
    assert StoredPools(pools + [pool]) == StoredPools(pools) + [StoredPool(pool)];
    TableSnoc(StoredPools(pools), StoredPool(pool), PoolKey);
  }

  /** Draft pools are stored under their own identifiers. */
  lemma StoredUnderOwnId(pools: seq<LbPool>, i: nat)
    requires i < |pools| && Trim(pools[i].id) == pools[i].id
    ensures i < |StoredPools(pools)| && PoolKey(StoredPools(pools)[i]) == pools[i].id == PoolKey(pools[i])
  {
    hide Trim, NormalizeStrategy;
  }

  lemma StoredIdsAreDraftIds(parse: UrlParser, pools: seq<LbPool>)
    requires PoolsValid(parse, pools) && forall pool <- pools :: Trim(pool.id) == pool.id
    ensures Table(StoredPools(pools), PoolKey).Keys == DraftIds(pools)
    ensures Distinct(StoredPools(pools), PoolKey)
  {
    hide Trim;
    forall i | 0 <= i < |pools| ensures PoolKey(StoredPools(pools)[i]) == pools[i].id == PoolKey(pools[i]) {
      assert pools[i] in pools;
      StoredUnderOwnId(pools, i);
    }
    TablesAlike(StoredPools(pools), PoolKey, pools, PoolKey);
    PoolIdsAreKeys(parse, pools);
    assert PoolIds(pools) == DraftIds(pools) by {
      assert forall pool <- pools :: PoolKey(pool) == pool.id;
      hide Table, PoolValid, StoredPools;
    }
  }

  lemma StoredKeys(parse: UrlParser, pools: seq<LbPool>, n: nat)
    requires n < |pools| && PoolsValid(parse, pools) && forall pool <- pools :: Trim(pool.id) == pool.id
    ensures forall k <- Table(StoredPools(pools[..n]), PoolKey) :: k in DraftIds(pools) && k != pools[n].id
  {
    hide Trim;
    var front := pools[..n];
    assert forall i :: 0 <= i < n ==> front[i] == pools[i] && pools[i] in pools;
    assert PoolsValid(parse, front) by { hide PoolValid, PoolKey; }
    assert forall pool <- front :: Trim(pool.id) == pool.id;
    StoredIdsAreDraftIds(parse, front);
    StoredUnderOwnId(pools, n);
    hide PoolValid, StoredPools, Table;
    forall k | k in DraftIds(front) ensures k in DraftIds(pools) && k != pools[n].id {
      var i :| 0 <= i < n && front[i].id == k;
      StoredUnderOwnId(pools, i);
      assert PoolKey(pools[i]) != PoolKey(pools[n]);
    }
  }

  /** What is known before the n-th draft pool is sent. */
  lemma PoolReady(parse: UrlParser, lb0: LoadBalancerConfig, pools: seq<LbPool>, order: seq<string>, n: nat,
                  lb: LoadBalancerConfig)
    requires PoolsReady(parse, lb0, pools, order) && n < |pools|
    requires PoolsPushed(parse, lb0, pools[..n], order, lb)
    ensures var id := pools[n].id;
            && id != "" && Trim(id) == id && PoolValid(parse, pools[n])
            && (id in Table(lb.pools, PoolKey) <==> id in order)
            && (id in order ==> PathTail(id) == id)
    ensures forall id <- order :: exists pool <- lb.pools :: PoolKey(pool) == id
  {
    OrderIsIds(parse, lb0, order);
    PoolIdsAreKeys(parse, lb0.pools);
    StoredKeys(parse, pools, n);
    TableHolds(lb.pools, PoolKey);
    assert pools[n] in pools;
    hide Trim, Table, NodesValid, StoredPools, PoolIds, DraftIds, InOrder, RouteValid, DefaultValid, PathTail;
    forall id | id in order ensures exists pool <- lb.pools :: PoolKey(pool) == id {
      assert id in Table(lb.pools, PoolKey);
    }
  }

  /** The balancer that the request for one draft pool asks for. */
  function PoolWanted(lb: LoadBalancerConfig, pool: LbPool, known: bool, generatedId: string): LoadBalancerConfig
    requires known ==> 0 <= FindPool(lb.pools, pool.id) < |lb.pools|
  {
    lb.(pools := if known then lb.pools[FindPool(lb.pools, pool.id) := UpdatedPool(pool.id, pool)]
                 else lb.pools + [CreatedPool(pool, generatedId)])
  }

  /** The request for a draft pool that the server does not have is accepted. */
  lemma CreatePushStep(parse: UrlParser, lb0: LoadBalancerConfig, pools: seq<LbPool>, order: seq<string>, n: nat,
                       lb: LoadBalancerConfig, generatedId: string)
    requires PoolsReady(parse, lb0, pools, order) && n < |pools| && pools[n].id !in order
    requires PoolsPushed(parse, lb0, pools[..n], order, lb)
    ensures PoolsPushed(parse, lb0, pools[..n + 1], order, PoolWanted(lb, pools[n], false, generatedId))
  {
    PoolReady(parse, lb0, pools, order, n, lb);
    var pool := pools[n];
    TakeSnoc(pools, n);
    StoredSnoc(pools[..n], pool);
    StoredIsValid(parse, pool);
    AppendedInOrder(lb.pools, order, StoredPool(pool));
    hide Trim, Table, LbValid, PoolValid, StoredPools, CreatedPool, PoolsReady, InOrder, StoredPool;
    CreateStep(parse, lb, pool, generatedId);
    AddThenUpdate(Table(lb0.pools, PoolKey), Table(StoredPools(pools[..n]), PoolKey), pool.id, StoredPool(pool));
  }

  /** The request for one that it has is accepted exactly when no twin stands before it. */
  lemma UpdatePushStep(parse: UrlParser, lb0: LoadBalancerConfig, pools: seq<LbPool>, order: seq<string>, n: nat,
                       lb: LoadBalancerConfig)
    requires PoolsReady(parse, lb0, pools, order) && n < |pools| && pools[n].id in order
    requires PoolsPushed(parse, lb0, pools[..n], order, lb)
    ensures 0 <= FindPool(lb.pools, pools[n].id) < |lb.pools|
    ensures var wanted := PoolWanted(lb, pools[n], true, "");
            if EarlierTwin(order, pools[n].id) then !Admissible(parse, Config(EMPTY_ROUTING, wanted))
            else PoolsPushed(parse, lb0, pools[..n + 1], order, wanted)
  {
    PoolReady(parse, lb0, pools, order, n, lb);
    var pool := pools[n];
    var j :| 0 <= j < |order| && order[j] == pool.id;
    TwinsOfTheOrder(lb.pools, order, j);
    LookupExactIff(lb.pools, order, j);
    var i := FindPool(lb.pools, pool.id);
    hide FindPool, HasEarlierTwin, EarlierTwin;
    if EarlierTwin(order, pool.id) {
      TwinUpdateRejected(parse, lb, i, pool);
      hide *;
    } else {
      UpdatedPushed(parse, lb0, pools, order, n, lb, i);
      hide *;
    }
  }

  lemma UpdatedPushed(parse: UrlParser, lb0: LoadBalancerConfig, pools: seq<LbPool>, order: seq<string>, n: nat,
                      lb: LoadBalancerConfig, i: nat)
    requires n < |pools| && Trim(pools[n].id) == pools[n].id && PoolValid(parse, pools[n])
    requires PoolsPushed(parse, lb0, pools[..n], order, lb)
    requires i < |lb.pools| && PoolKey(lb.pools[i]) == pools[n].id
    ensures PoolsPushed(parse, lb0, pools[..n + 1], order, lb.(pools := lb.pools[i := UpdatedPool(pools[n].id, pools[n])]))
  {
    var pool := pools[n];
    TakeSnoc(pools, n);
    StoredSnoc(pools[..n], pool);
    StoredIsValid(parse, pool);
    SameKeysInOrder(lb.pools, order, i, StoredPool(pool));
    hide Trim, Table, LbValid, PoolValid, StoredPools, InOrder, UpdatedPool;
    UpdateStep(parse, lb, i, pool);
    AddThenUpdate(Table(lb0.pools, PoolKey), Table(StoredPools(pools[..n]), PoolKey), pool.id, StoredPool(pool));
  }

  lemma AddThenUpdate<K, V>(a: map<K, V>, b: map<K, V>, k: K, v: V)
    ensures (a + b)[k := v] == a + b[k := v]
  {
  }

  /** The request for the n-th draft pool: which it is, and when it is accepted. */
  lemma PushStep(parse: UrlParser, lb0: LoadBalancerConfig, pools: seq<LbPool>, order: seq<string>, n: nat,
                 lb: LoadBalancerConfig, generatedId: string)
    requires PoolsReady(parse, lb0, pools, order) && n < |pools|
    requires PoolsPushed(parse, lb0, pools[..n], order, lb)
    ensures var id := pools[n].id;
            && id != "" && (id in order ==> PathTail(id) == id && 0 <= FindPool(lb.pools, id) < |lb.pools|)
            && var wanted := PoolWanted(lb, pools[n], id in order, generatedId);
               && Prepared(Config(EMPTY_ROUTING, wanted)) == Config(EMPTY_ROUTING, wanted)
               && (Admissible(parse, Config(EMPTY_ROUTING, wanted)) <==> !EarlierTwin(order, id))
               && (!EarlierTwin(order, id) ==> PoolsPushed(parse, lb0, pools[..n + 1], order, wanted))
  {
    PoolReady(parse, lb0, pools, order, n, lb);
    if pools[n].id in order {
      UpdatePushStep(parse, lb0, pools, order, n, lb);
    } else {
      CreatePushStep(parse, lb0, pools, order, n, lb, generatedId);
    }
    hide Trim, Table, LbValid, PoolValid, Admissible, Prepared, FindPool, CreatedPool, UpdatedPool, PoolsReady, InOrder,
         EqualFold, PathTail;
    AdmissibleIffValid(parse, Config(EMPTY_ROUTING, PoolWanted(lb, pools[n], pools[n].id in order, generatedId)));
  }

  method PushPools(server: Server, pools: seq<LbPool>, currentIds: set<string>, generatedId: string,
                   ghost order: seq<string>)
    returns (ok: bool, ghost exchanges: seq<Exchange>)
    requires currentIds == Elements(order)
    modifies server
    ensures server.log == old(server.log) + exchanges
    ensures var lb0 := old(server.current).loadBalancer;
            old(server.current).routing == EMPTY_ROUTING && PoolsReady(server.parse, lb0, pools, order) ==>
              && (ok <==> forall pool <- pools :: !EarlierTwin(order, pool.id))
              && (ok ==>
                    && AllAccepted(server.parse, exchanges)
                    && server.current.routing == EMPTY_ROUTING
                    && PoolsPushed(server.parse, lb0, pools, order, server.current.loadBalancer))
  {
    hide Trim, PathTail, PoolsReady, LbValid, Admissible, Prepared, FindPool, UpdatedPool, CreatedPool, Table, EarlierTwin,
         InOrder;
    exchanges := [];
    ghost var lb0 := server.current.loadBalancer;
    ghost var good := server.current.routing == EMPTY_ROUTING && PoolsReady(server.parse, lb0, pools, order);
    if good {
      NothingPushed(server.parse, lb0, pools, order);
    }
    for n := 0 to |pools|
      invariant server.log == old(server.log) + exchanges
      invariant good ==> server.current.routing == EMPTY_ROUTING
      invariant good ==> PoolsPushed(server.parse, lb0, pools[..n], order, server.current.loadBalancer)
      invariant good ==> AllAccepted(server.parse, exchanges)
      invariant good ==> forall k :: 0 <= k < n ==> !EarlierTwin(order, pools[k].id)
    {
      var pool := pools[n];
      ghost var lb := server.current.loadBalancer;
      if good {
        PushStep(server.parse, lb0, pools, order, n, lb, generatedId);
      }
      if pool.id == "" {
        continue;
      }
      var resp;
      if pool.id in currentIds {
        resp := server.UpdatePool(pool.id, pool);
      } else {
        resp := server.CreatePool(pool, generatedId);
      }
      exchanges := exchanges + [Exchange(resp, server.current.loadBalancer)];
      if resp != Done {
        assert pool in pools;
        return false, exchanges;
      }
    }
    TakeAll(pools);
    ok := true;
  }

  lemma NothingPushed(parse: UrlParser, lb: LoadBalancerConfig, pools: seq<LbPool>, order: seq<string>)
    requires PoolsReady(parse, lb, pools, order)
    ensures PoolsPushed(parse, lb, pools[..0], order, lb)
  {
    OwnOrder(lb.pools, order);
    hide LbValid, InOrder;
  }

  // Routes

  ghost predicate RoutesReady(parse: UrlParser, lb: LoadBalancerConfig, routes: seq<LbRouteRule>) {
    && LbValid(parse, lb) && Distinct(lb.routes, DomainKey)
    && (forall route <- routes :: RouteReady(PoolIds(lb.pools), route))
  }

  ghost predicate RouteReady(ids: set<string>, route: LbRouteRule) {
    PathSafe(route.domain) && RouteValid(ids, StoredDraft(route))
  }

  function StoredDrafts(routes: seq<LbRouteRule>): seq<LbRouteRule> {
    seq(|routes|, i requires 0 <= i < |routes| => StoredDraft(routes[i]))
  }

  lemma StoredDraftsSnoc(routes: seq<LbRouteRule>, route: LbRouteRule)
    ensures Table(StoredDrafts(routes + [route]), DomainKey)
         == Table(StoredDrafts(routes), DomainKey)[DomainKey(route) := StoredDraft(route)]
  {
    StoredUnderDomain(route);
    hide DomainKey, StoredDraft, Table;
    assert StoredDrafts(routes + [route]) == StoredDrafts(routes) + [StoredDraft(route)];
    TableSnoc(StoredDrafts(routes), StoredDraft(route), DomainKey);
  }

  lemma RouteReachesServer(ids: set<string>, route: LbRouteRule)
    requires RouteReady(ids, route)
    ensures route.domain != "" && PathTail(route.domain) == route.domain
    ensures NormalizeDomain(route.domain) == DomainKey(route) != ""
  {
    TrimOfNothing();
    hide Trim, PathTail;
  }

  /** Same pools and default, and these routes by domain. */
  ghost predicate RoutesAre(parse: UrlParser, lb0: LoadBalancerConfig, table: map<string, LbRouteRule>, lb: LoadBalancerConfig) {
    && LbValid(parse, lb) && Distinct(lb.routes, DomainKey)
    && lb.pools == lb0.pools && lb.defaultPoolId == lb0.defaultPoolId
    && Table(lb.routes, DomainKey) == table
  }

  lemma RouteStep(parse: UrlParser, lb0: LoadBalancerConfig, routes: seq<LbRouteRule>, n: nat, lb: LoadBalancerConfig)
    requires RoutesReady(parse, lb0, routes) && n < |routes|
    requires RoutesAre(parse, lb0, Table(lb0.routes, DomainKey) + Table(StoredDrafts(routes[..n]), DomainKey), lb)
    ensures var domain := routes[n].domain;
            && domain != "" && PathTail(domain) == domain && NormalizeDomain(domain) == DomainKey(routes[n]) != ""
            && var wanted := lb.(routes := LbAdmin.WithRoute(lb.routes, DomainKey(routes[n]), routes[n]));
               && RoutesAre(parse, lb0, Table(lb0.routes, DomainKey) + Table(StoredDrafts(routes[..n + 1]), DomainKey), wanted)
               && Admissible(parse, Config(EMPTY_ROUTING, wanted))
               && Prepared(Config(EMPTY_ROUTING, wanted)) == Config(EMPTY_ROUTING, wanted)
  {
    var route := routes[n];
    assert RouteReady(PoolIds(lb0.pools), route);
    RouteReachesServer(PoolIds(lb0.pools), route);
    TakeSnoc(routes, n);
    StoredDraftsSnoc(routes[..n], route);
    hide Trim, Table, LbValid, Admissible, Prepared, PoolIds, RoutesReady, RouteValid, NormalizeDomain, PathTail, Distinct,
         LbAdmin.WithRoute, StoredDrafts, StoredDraft, DomainKey;
    UpsertStep(parse, lb, route);
    AddThenUpdate(Table(lb0.routes, DomainKey), Table(StoredDrafts(routes[..n]), DomainKey), DomainKey(route), StoredDraft(route));
    ValidIsAdmitted(parse, lb.(routes := LbAdmin.WithRoute(lb.routes, DomainKey(route), route)));
  }

  method PushRoutes(server: Server, routes: seq<LbRouteRule>)
    returns (ok: bool, ghost exchanges: seq<Exchange>)
    modifies server
    ensures server.log == old(server.log) + exchanges
    ensures var lb0 := old(server.current).loadBalancer;
            old(server.current).routing == EMPTY_ROUTING && RoutesReady(server.parse, lb0, routes) ==>
              && ok && AllAccepted(server.parse, exchanges)
              && server.current.routing == EMPTY_ROUTING
              && RoutesAre(server.parse, lb0, Table(lb0.routes, DomainKey) + Table(StoredDrafts(routes), DomainKey),
                           server.current.loadBalancer)
  {
    hide Trim, RoutesReady, LbValid, Admissible, Table, Distinct, LbAdmin.WithRoute, NormalizeDomain, StoredDrafts, DomainKey,
         PathTail, Prepared;
    exchanges := [];
    ghost var lb0 := server.current.loadBalancer;
    ghost var good := server.current.routing == EMPTY_ROUTING && RoutesReady(server.parse, lb0, routes);
    if good {
      NoRoutePushed(server.parse, lb0, routes);
    }
    for n := 0 to |routes|
      invariant server.log == old(server.log) + exchanges
      invariant good ==> server.current.routing == EMPTY_ROUTING
      invariant good ==> RoutesAre(server.parse, lb0, Table(lb0.routes, DomainKey) + Table(StoredDrafts(routes[..n]), DomainKey),
                                   server.current.loadBalancer)
      invariant good ==> AllAccepted(server.parse, exchanges)
    {
      var route := routes[n];
      if good {
        RouteStep(server.parse, lb0, routes, n, server.current.loadBalancer);
      }
      if route.domain == "" {
        continue;
      }
      var resp := server.UpsertRoute(route.domain, route);
      exchanges := exchanges + [Exchange(resp, server.current.loadBalancer)];
      if resp != Done {
        return false, exchanges;
      }
    }
    TakeAll(routes);
    ok := true;
  }

  lemma NoRoutePushed(parse: UrlParser, lb: LoadBalancerConfig, routes: seq<LbRouteRule>)
    requires RoutesReady(parse, lb, routes)
    ensures RoutesAre(parse, lb, Table(lb.routes, DomainKey) + Table(StoredDrafts(routes[..0]), DomainKey), lb)
  {
    hide LbValid, RouteReady;
    assert Table(lb.routes, DomainKey) + Table(StoredDrafts(routes[..0]), DomainKey) == Table(lb.routes, DomainKey);
  }

  /** The distinct non-blank texts among the items, in the order in which a Set of the console iterates them. */
  method UniqueNonBlank(items: seq<string>) returns (r: seq<string>)
    ensures forall x :: x in r <==> x in items && x != ""
    ensures NoRepeats(r)
    ensures NoRepeats(items) && "" !in items ==> r == items
  {
    r := [];
    for n := 0 to |items|
      invariant forall x :: x in r <==> x in items[..n] && x != ""
      invariant NoRepeats(r)
      invariant NoRepeats(items) && "" !in items ==> r == items[..n]
    {
      TakeSnoc(items, n);
      assert items[n] in items;
      if items[n] != "" && items[n] !in r {
        r := r + [items[n]];
      }
    }
    TakeAll(items);
  }

  ghost predicate DropRoutesReady(parse: UrlParser, lb: LoadBalancerConfig, current: seq<string>) {
    && LbValid(parse, lb) && Distinct(lb.routes, DomainKey)
    && (forall domain <- current :: domain in Table(lb.routes, DomainKey))
    && (forall domain <- current :: PathSafe(domain) && NormalizeDomain(domain) == domain)
    && (forall i, j :: 0 <= i < j < |current| ==> current[i] != current[j])
  }

  /** The domains of the first n that are not wanted. */
  function Unwanted(current: seq<string>, desired: set<string>): set<string> {
    set x | x in current && x !in desired
  }

  lemma UnwantedGrows(current: seq<string>, desired: set<string>, n: nat)
    requires n < |current| && current[n] !in desired
    requires forall i, j :: 0 <= i < j < |current| ==> current[i] != current[j]
    ensures Unwanted(current[..n + 1], desired) == Unwanted(current[..n], desired) + {current[n]}
    ensures current[n] !in Unwanted(current[..n], desired)
  {
    TakeSnoc(current, n);
    assert current[n] !in current[..n];
  }

  lemma SubtractThenRemove<K, V>(a: map<K, V>, gone: set<K>, k: K)
    ensures (a - gone) - {k} == a - (gone + {k})
  {
  }

  lemma DropStep(parse: UrlParser, lb0: LoadBalancerConfig, current: seq<string>, desired: set<string>, n: nat,
                 lb: LoadBalancerConfig)
    requires DropRoutesReady(parse, lb0, current) && n < |current| && current[n] !in desired
    requires RoutesAre(parse, lb0, Table(lb0.routes, DomainKey) - Unwanted(current[..n], desired), lb)
    ensures var domain := current[n];
            var i := FindRoute(lb.routes, domain);
            && domain != "" && PathTail(domain) == domain && NormalizeDomain(domain) == domain
            && 0 <= i < |lb.routes|
            && var wanted := lb.(routes := Without(lb.routes, i));
               && RoutesAre(parse, lb0, Table(lb0.routes, DomainKey) - Unwanted(current[..n + 1], desired), wanted)
               && Admissible(parse, Config(EMPTY_ROUTING, wanted))
               && Prepared(Config(EMPTY_ROUTING, wanted)) == Config(EMPTY_ROUTING, wanted)
  {
    var domain := current[n];
    assert domain in current && PathSafe(domain);
    TakeSnoc(current, n);
    UnwantedGrows(current, desired, n);
    hide Trim, Table, LbValid, Admissible, Prepared, NormalizeDomain, Distinct, FindRoute, Without, Unwanted;
    DropRouteStep(parse, lb, domain);
    SubtractThenRemove(Table(lb0.routes, DomainKey), Unwanted(current[..n], desired), domain);
    ValidIsAdmitted(parse, lb.(routes := Without(lb.routes, FindRoute(lb.routes, domain))));
  }

  method DropRoutes(server: Server, current: seq<string>, desired: set<string>)
    returns (ok: bool, ghost exchanges: seq<Exchange>)
    modifies server
    ensures server.log == old(server.log) + exchanges
    ensures var lb0 := old(server.current).loadBalancer;
            old(server.current).routing == EMPTY_ROUTING && DropRoutesReady(server.parse, lb0, current) ==>
              && ok && AllAccepted(server.parse, exchanges)
              && server.current.routing == EMPTY_ROUTING
              && RoutesAre(server.parse, lb0, Table(lb0.routes, DomainKey) - Unwanted(current, desired),
                           server.current.loadBalancer)
  {
    hide Trim, DropRoutesReady, LbValid, Admissible, Table, Distinct, NormalizeDomain, FindRoute, Without;
    exchanges := [];
    ghost var lb0 := server.current.loadBalancer;
    ghost var good := server.current.routing == EMPTY_ROUTING && DropRoutesReady(server.parse, lb0, current);
    if good {
      NoRouteDropped(server.parse, lb0, current, desired);
    }
    for n := 0 to |current|
      invariant server.log == old(server.log) + exchanges
      invariant good ==> server.current.routing == EMPTY_ROUTING
      invariant good ==> RoutesAre(server.parse, lb0, Table(lb0.routes, DomainKey) - Unwanted(current[..n], desired),
                                   server.current.loadBalancer)
      invariant good ==> AllAccepted(server.parse, exchanges)
    {
      var domain := current[n];
      if domain in desired {
        TakeSnoc(current, n);
        assert Unwanted(current[..n + 1], desired) == Unwanted(current[..n], desired);
        continue;
      }
      if good {
        DropStep(server.parse, lb0, current, desired, n, server.current.loadBalancer);
      }
      var resp := server.DeleteRoute(domain);
      exchanges := exchanges + [Exchange(resp, server.current.loadBalancer)];
      if resp != Done {
        return false, exchanges;
      }
    }
    TakeAll(current);
    ok := true;
  }

  lemma NoRouteDropped(parse: UrlParser, lb: LoadBalancerConfig, current: seq<string>, desired: set<string>)
    requires DropRoutesReady(parse, lb, current)
    ensures RoutesAre(parse, lb, Table(lb.routes, DomainKey) - Unwanted(current[..0], desired), lb)
  {
    hide LbValid;
    assert Unwanted(current[..0], desired) == {};
    assert Table(lb.routes, DomainKey) - {} == Table(lb.routes, DomainKey);
  }

  // Pools

  ghost predicate DropPoolsReady(parse: UrlParser, lb: LoadBalancerConfig, order: seq<string>, desired: set<string>) {
    && LbValid(parse, lb) && NoRepeats(order) && InOrder(lb.pools, order)
    && (forall id <- order :: id in PoolIds(lb.pools) && PathSafe(id))
    && (forall id <- order :: id in desired ==> !EarlierTwin(order, id))
    && (forall route <- lb.routes :: RouteValid(desired, route))
  }

  /** The j-th identifier is to go, and its lookup hits a twin that is to stay. */
  predicate Misses(order: seq<string>, desired: set<string>, j: nat)
    requires j < |order|
  {
    order[j] !in desired && exists m :: 0 <= m < j && order[m] in desired && EqualFold(order[m], order[j])
  }

  /** The default is cleared along with any pool that it spells, in whatever case. */
  predicate DefaultGone(defaultPoolId: string, gone: set<string>) {
    exists id <- gone :: EqualFold(Trim(defaultPoolId), id)
  }

  function DefaultAfter(defaultPoolId: string, gone: set<string>): string {
    if DefaultGone(defaultPoolId, gone) then "" else defaultPoolId
  }

  lemma DefaultStep(defaultPoolId: string, gone: set<string>, id: string)
    requires id != ""
    ensures var d := DefaultAfter(defaultPoolId, gone);
            DefaultAfter(defaultPoolId, gone + {id}) == if EqualFold(Trim(d), id) then "" else d
  {
    TrimOfNothing();
    assert ToLower("") == "";
    assert |ToLower(id)| == |id|;
    hide Trim, ToLower;
    assert forall k :: k in gone + {id} <==> k in gone || k == id;
  }

  /** Same routes, these pools by identifier, in order, and the default unless it is gone. */
  ghost predicate PoolsAre(parse: UrlParser, lb0: LoadBalancerConfig, gone: set<string>, order: seq<string>,
                           lb: LoadBalancerConfig) {
    && LbValid(parse, lb)
    && lb.routes == lb0.routes
    && lb.defaultPoolId == DefaultAfter(lb0.defaultPoolId, gone)
    && Table(lb.pools, PoolKey) == Table(lb0.pools, PoolKey) - gone
    && InOrder(lb.pools, order)
  }

  /** What is known before the n-th of the server's pools is deleted. */
  lemma DropPoolReady(parse: UrlParser, lb0: LoadBalancerConfig, order: seq<string>, desired: set<string>, n: nat,
                      lb: LoadBalancerConfig)
    requires DropPoolsReady(parse, lb0, order, desired) && n < |order| && order[n] !in desired
    requires PoolsAre(parse, lb0, Unwanted(order[..n], desired), order, lb)
    ensures var id := order[n];
            && id != "" && PathTail(id) == id && Trim(id) == id
            && Unwanted(order[..n + 1], desired) == Unwanted(order[..n], desired) + {id}
            && (exists pool <- lb.pools :: PoolKey(pool) == id)
            && (HasEarlierTwin(lb.pools, order, n) <==> Misses(order, desired, n))
  {
    var id := order[n];
    assert id in order && PathSafe(id);
    PathSafeIsBare(id);
    UnwantedGrows(order, desired, n);
    PoolIdsAreKeys(parse, lb0.pools);
    TableHolds(lb.pools, PoolKey);
    hide Trim, Table, LbValid, PoolIds, Unwanted, PathSafe, EarlierTwin, RouteValid, InOrder, PathTail;
    assert id in Table(lb.pools, PoolKey);
    WhoIsLeft(lb.pools, order, desired, n, Table(lb0.pools, PoolKey), Table(lb.pools, PoolKey));
  }

  /** Before the n-th deletion the earlier ones that are left are those to stay. */
  lemma WhoIsLeft(pools: seq<LbPool>, order: seq<string>, desired: set<string>, n: nat,
                  before: map<string, LbPool>, now: map<string, LbPool>)
    requires NoRepeats(order) && n < |order| && order[n] !in desired
    requires forall id <- order :: id in before
    requires now == before - Unwanted(order[..n], desired)
    requires forall pool <- pools :: PoolKey(pool) in now
    requires forall k <- now :: now[k] in pools && PoolKey(now[k]) == k
    ensures HasEarlierTwin(pools, order, n) <==> Misses(order, desired, n)
  {
    hide EqualFold, PoolKey, Rank;
    if HasEarlierTwin(pools, order, n) {
      var pool :| pool in pools && Rank(order, PoolKey(pool)) < n && EqualFold(PoolKey(pool), order[n]);
      var m := Rank(order, PoolKey(pool));
      assert order[m] == PoolKey(pool) && order[..n][m] == order[m];
    }
    if Misses(order, desired, n) {
      var m :| 0 <= m < n && order[m] in desired && EqualFold(order[m], order[n]);
      assert order[m] in order && order[m] in now;
      RankAt(order, m);
      assert now[order[m]] in pools;
    }
  }

  /** A deletion whose lookup is exact is accepted, and takes the pool it names. */
  lemma DropPoolsStep(parse: UrlParser, lb0: LoadBalancerConfig, order: seq<string>, desired: set<string>, n: nat,
                      lb: LoadBalancerConfig, i: nat)
    requires DropPoolsReady(parse, lb0, order, desired) && n < |order| && order[n] !in desired
    requires PoolsAre(parse, lb0, Unwanted(order[..n], desired), order, lb)
    requires i < |lb.pools| && PoolKey(lb.pools[i]) == order[n]
    ensures PoolsAre(parse, lb0, Unwanted(order[..n + 1], desired), order, WithoutPool(lb, i, order[n]))
  {
    var id := order[n];
    DropPoolReady(parse, lb0, order, desired, n, lb);
    DefaultStep(lb0.defaultPoolId, Unwanted(order[..n], desired), id);
    RemovedInOrder(lb.pools, order, i);
    assert WithoutPool(lb, i, id).pools == Without(lb.pools, i);
    hide Trim, Table, LbValid, FindPool, Unwanted, PoolIds, RouteValid, WithoutPool, InOrder, DefaultAfter, PathTail, EarlierTwin,
         EqualFold, Without;
    DropPoolStep(parse, lb, i, id, desired);
    SubtractThenRemove(Table(lb0.pools, PoolKey), Unwanted(order[..n], desired), id);
  }

  /** A deletion that misses takes, if it is accepted, a pool that was to stay. */
  lemma MissTakesAnother(parse: UrlParser, lb0: LoadBalancerConfig, order: seq<string>, desired: set<string>, n: nat,
                         lb: LoadBalancerConfig)
    requires DropPoolsReady(parse, lb0, order, desired) && n < |order| && order[n] !in desired
    requires PoolsAre(parse, lb0, Unwanted(order[..n], desired), order, lb)
    ensures var i := FindPool(lb.pools, order[n]);
            && 0 <= i < |lb.pools|
            && (PoolKey(lb.pools[i]) == order[n] <==> !Misses(order, desired, n))
            && (Misses(order, desired, n) ==>
                  && PoolKey(lb.pools[i]) in desired
                  && PoolKey(lb.pools[i]) !in PoolIds(WithoutPool(lb, i, order[n]).pools))
  {
    DropPoolReady(parse, lb0, order, desired, n, lb);
    LookupExactIff(lb.pools, order, n);
    var i := FindPool(lb.pools, order[n]);
    assert PoolsValid(parse, lb.pools);
    PoolDropped(parse, lb.pools, i);
    assert WithoutPool(lb, i, order[n]).pools == Without(lb.pools, i);
    if PoolKey(lb.pools[i]) != order[n] {
      TableHolds(lb.pools, PoolKey);
      hide Table, PoolKey, Rank, Unwanted, LbValid, PoolIds, FindPool, WithoutPool, Trim, InOrder, EqualFold;
      assert lb.pools[i] in lb.pools;
      LeftIsToStay(order, desired, n, PoolKey(lb.pools[i]));
    }
    hide *;
  }

  lemma LeftIsToStay(order: seq<string>, desired: set<string>, n: nat, key: string)
    requires n < |order| && Rank(order, key) < n && key !in Unwanted(order[..n], desired)
    ensures key in desired
  {
    var m := Rank(order, key);
    assert order[..n][m] == key;
  }

  lemma FewerIds(pools: seq<LbPool>, i: nat)
    requires i < |pools|
    ensures PoolIds(Without(pools, i)) <= PoolIds(pools)
  {
    WithoutAt(pools, i);
    hide Trim, Without;
  }

  method DropPools(server: Server, order: seq<string>, desired: set<string>)
    returns (ok: bool, ghost exchanges: seq<Exchange>)
    modifies server
    ensures server.log == old(server.log) + exchanges
    ensures var lb0 := old(server.current).loadBalancer;
            old(server.current).routing == EMPTY_ROUTING && DropPoolsReady(server.parse, lb0, order, desired) ==>
              && ((forall j :: 0 <= j < |order| ==> !Misses(order, desired, j)) ==>
                    && ok && AllAccepted(server.parse, exchanges)
                    && server.current.routing == EMPTY_ROUTING
                    && PoolsAre(server.parse, lb0, Unwanted(order, desired), order, server.current.loadBalancer))
              && (ok && (exists j :: 0 <= j < |order| && Misses(order, desired, j)) ==>
                    exists lost <- desired :: lost !in PoolIds(server.current.loadBalancer.pools))
  {
    hide Trim, DropPoolsReady, LbValid, Admissible, Prepared, Table, Distinct, FindPool, WithoutPool, Misses, InOrder, PathTail,
         DefaultAfter, PoolIds, PoolKey;
    exchanges := [];
    ghost var lb0 := server.current.loadBalancer;
    ghost var good := server.current.routing == EMPTY_ROUTING && DropPoolsReady(server.parse, lb0, order, desired);
    ghost var lost: Option<string> := None;
    if good {
      NoPoolDropped(server.parse, lb0, order, desired);
    }
    for n := 0 to |order|
      invariant server.log == old(server.log) + exchanges
      invariant good ==> server.current.routing == EMPTY_ROUTING
      invariant good && lost.None? ==> PoolsAre(server.parse, lb0, Unwanted(order[..n], desired), order, server.current.loadBalancer)
      invariant good && lost.None? ==> AllAccepted(server.parse, exchanges)
      invariant good && lost.None? ==> forall j :: 0 <= j < n ==> !Misses(order, desired, j)
      invariant good && lost.Some? ==> lost.value in desired && lost.value !in PoolIds(server.current.loadBalancer.pools)
      invariant good && lost.Some? ==> exists j :: 0 <= j < n && Misses(order, desired, j)
    {
      var id := order[n];
      if id in desired {
        KeptIsNoMiss(order, desired, n);
        continue;
      }
      ghost var lb := server.current.loadBalancer;
      if good {
        DeletionIs(server.parse, lb0, order, desired, n, lb, lost);
      }
      var resp := server.DeletePool(id);
      exchanges := exchanges + [Exchange(resp, server.current.loadBalancer)];
      if resp != Done {
        return false, exchanges;
      }
      if good && lost.None? && Misses(order, desired, n) {
        lost := Some(PoolKey(lb.pools[FindPool(lb.pools, id)]));
      }
    }
    TakeAll(order);
    ok := true;
  }

  lemma KeptIsNoMiss(order: seq<string>, desired: set<string>, n: nat)
    requires n < |order| && order[n] in desired
    ensures Unwanted(order[..n + 1], desired) == Unwanted(order[..n], desired)
    ensures !Misses(order, desired, n)
  {
    TakeSnoc(order, n);
  }

  /** What the n-th deletion asks for, before and after a pool has been lost. */
  lemma DeletionIs(parse: UrlParser, lb0: LoadBalancerConfig, order: seq<string>, desired: set<string>, n: nat,
                   lb: LoadBalancerConfig, lost: Option<string>)
    requires DropPoolsReady(parse, lb0, order, desired) && n < |order| && order[n] !in desired
    requires lost.None? ==> PoolsAre(parse, lb0, Unwanted(order[..n], desired), order, lb)
    requires lost.Some? ==> lost.value !in PoolIds(lb.pools)
    ensures var id := order[n];
            var i := FindPool(lb.pools, id);
            && id != "" && PathTail(id) == id
            && (lost.None? ==> i >= 0)
            && (0 <= i < |lb.pools| ==>
                  var cfg := Config(EMPTY_ROUTING, WithoutPool(lb, i, id));
                  && Prepared(cfg) == cfg
                  && (lost.None? && !Misses(order, desired, n) ==>
                        && Admissible(parse, cfg)
                        && PoolsAre(parse, lb0, Unwanted(order[..n + 1], desired), order, cfg.loadBalancer)
                        && LbValid(parse, cfg.loadBalancer))
                  && (lost.None? && Misses(order, desired, n) ==>
                        PoolKey(lb.pools[i]) in desired && PoolKey(lb.pools[i]) !in PoolIds(cfg.loadBalancer.pools))
                  && (lost.Some? ==> lost.value !in PoolIds(cfg.loadBalancer.pools)))
  {
    var id := order[n];
    var i := FindPool(lb.pools, id);
    assert id in order && PathSafe(id);
    if lost.None? {
      MissTakesAnother(parse, lb0, order, desired, n, lb);
    }
    if 0 <= i < |lb.pools| {
      FewerIds(lb.pools, i);
      assert WithoutPool(lb, i, id).pools == Without(lb.pools, i);
      AdmissibleIffValid(parse, Config(EMPTY_ROUTING, WithoutPool(lb, i, id)));
      if lost.None? && !Misses(order, desired, n) {
        DropPoolsStep(parse, lb0, order, desired, n, lb, i);
      }
    }
    hide LbValid, Admissible, Prepared, DropPoolsReady, FindPool, Misses, Unwanted, PoolKey, PoolIds, WithoutPool, PathTail, Table,
         InOrder, DefaultAfter, Without;
  }

  lemma NoPoolDropped(parse: UrlParser, lb: LoadBalancerConfig, order: seq<string>, desired: set<string>)
    requires DropPoolsReady(parse, lb, order, desired)
    ensures PoolsAre(parse, lb, Unwanted(order[..0], desired), order, lb)
  {
    hide LbValid, InOrder;
    assert Unwanted(order[..0], desired) == {};
    assert Table(lb.pools, PoolKey) - {} == Table(lb.pools, PoolKey);
  }

  // Putting the phases together

  function Elements<T>(s: seq<T>): set<T> {
    set x | x in s
  }

  lemma OnlyTheAddedRemain<K, V>(a: map<K, V>, b: map<K, V>, gone: set<K>)
    requires gone == a.Keys - b.Keys
    ensures (a + b) - gone == b
  {
  }

  /** The two ways in which the plan can go wrong are the two sides of the condition on identifiers. */
  lemma KeepsPoolsIff(parse: UrlParser, lb: LoadBalancerConfig, pools: seq<LbPool>, order: seq<string>)
    requires LbValid(parse, lb) && IsOrderOf(order, lb.pools) && forall pool <- pools :: pool.id != ""
    ensures KeepsPools(lb, pools)
       <==> && (forall pool <- pools :: !EarlierTwin(order, pool.id))
            && (forall j :: 0 <= j < |order| ==> !Misses(order, DraftIds(pools), j))
  {
    OrderIsIds(parse, lb, order);
    hide LbValid, PoolIds, PoolKey, EqualFold;
    if KeepsPools(lb, pools) {
      forall m, j | 0 <= m < j < |order| ensures order[j] in DraftIds(pools) ==> !EqualFold(order[m], order[j]) {
        FoldsBack(order[m], order[j]);
        assert order[m] in order && order[j] in order;
      }
      forall j | 0 <= j < |order| ensures !Misses(order, DraftIds(pools), j) {
        assert forall m :: 0 <= m <= j ==> order[m] in order;
      }
    } else {
      var a, b :| a in PoolIds(lb.pools) && b in PoolIds(lb.pools) && a in DraftIds(pools) && EqualFold(a, b) && a != b;
      TwinsGoWrong(order, pools, a, b);
    }
  }

  lemma FoldsBack(a: string, b: string)
    ensures EqualFold(a, b) <==> EqualFold(b, a)
  {
  }

  lemma TwinsGoWrong(order: seq<string>, pools: seq<LbPool>, a: string, b: string)
    requires a in order && b in order && a != b && a in DraftIds(pools) && EqualFold(a, b)
    ensures (exists pool <- pools :: EarlierTwin(order, pool.id))
            || exists j :: 0 <= j < |order| && Misses(order, DraftIds(pools), j)
  {
    FoldsBack(a, b);
    hide EqualFold;
    var p :| 0 <= p < |order| && order[p] == a;
    var q :| 0 <= q < |order| && order[q] == b;
    if q < p {
      assert EarlierTwin(order, a);
    } else if b in DraftIds(pools) {
      assert EarlierTwin(order, b);
    } else {
      assert Misses(order, DraftIds(pools), q);
    }
  }

  /** The console's list of current identifiers is the server's, in order. */
  lemma CurrentIsOrder(parse: UrlParser, lb: LoadBalancerConfig, order: seq<string>)
    requires LbValid(parse, lb)
    requires var ids := TrimmedIds(lb.pools); NoRepeats(ids) && "" !in ids ==> order == ids
    ensures IsOrderOf(order, lb.pools)
  {
    var ids := TrimmedIds(lb.pools);
    hide Trim;
    forall i, j | 0 <= i < j < |ids| ensures ids[i] != ids[j] {
      assert PoolKey(lb.pools[i]) != PoolKey(lb.pools[j]);
    }
    forall i | 0 <= i < |ids| ensures ids[i] != "" {
      assert PoolValid(parse, lb.pools[i]);
    }
  }

  lemma CanPushPools(parse: UrlParser, lb: LoadBalancerConfig, pools: seq<LbPool>, routes: seq<LbRouteRule>, order: seq<string>)
    requires Pushable(parse, lb, pools, routes) && IsOrderOf(order, lb.pools)
    requires forall pool <- pools :: Trim(pool.id) == pool.id
    ensures PoolsReady(parse, lb, pools, order)
    ensures forall pool <- pools :: pool.id != ""
  {
    OrderIsIds(parse, lb, order);
    hide Trim, LbValid, PoolIds, DraftIds, PathSafe, NodesValid;
  }

  lemma CanPushRoutes(parse: UrlParser, lb0: LoadBalancerConfig, pools: seq<LbPool>, routes: seq<LbRouteRule>,
                      order: seq<string>, lb1: LoadBalancerConfig)
    requires Pushable(parse, lb0, pools, routes) && PoolsReady(parse, lb0, pools, order)
    requires PoolsPushed(parse, lb0, pools, order, lb1)
    requires forall route <- routes :: Trim(route.poolId) == route.poolId && Trim(route.fallbackPoolId) == route.fallbackPoolId
    ensures PoolIds(lb1.pools) == PoolIds(lb0.pools) + DraftIds(pools)
    ensures RoutesReady(parse, lb1, routes)
    ensures forall route <- routes :: RouteValid(DraftIds(pools), StoredDraft(route))
  {
    PoolIdsAreKeys(parse, lb0.pools);
    PoolIdsAreKeys(parse, lb1.pools);
    StoredIdsAreDraftIds(parse, pools);
    assert PoolIds(lb1.pools) == PoolIds(lb0.pools) + DraftIds(pools) by {
      hide Trim, PoolIds, DraftIds, PoolsValid, Table;
    }
    forall route | route in routes
      ensures RouteValid(DraftIds(pools), StoredDraft(route)) && RouteReady(PoolIds(lb1.pools), route)
    {
      assert PathSafe(route.domain) && RouteFilled(DraftIds(pools), route);
      DraftRouteValid(DraftIds(pools), PoolIds(lb1.pools), route);
      hide *;
    }
    hide Trim, Table, PoolIds, DraftIds, PoolsValid, PathSafe, InOrder, RouteValid, StoredDraft;
  }

  lemma DraftRouteValid(desired: set<string>, ids: set<string>, route: LbRouteRule)
    requires RouteFilled(desired, route) && PathSafe(route.domain) && desired <= ids
    requires Trim(route.poolId) == route.poolId && Trim(route.fallbackPoolId) == route.fallbackPoolId
    ensures RouteValid(desired, StoredDraft(route)) && RouteReady(ids, route)
  {
    PathSafeIsBare(route.domain);
    TrimmedLowerIdempotent(route.domain);
    TrimOfNothing();
    assert |ToLower(route.domain)| == |route.domain|;
    assert ToLower("") == "";
    hide Trim, ToLower, PathTail;
  }

  lemma DomainsAreKeys(routes: seq<LbRouteRule>)
    requires forall route <- routes :: DomainKey(route) == route.domain
    ensures Table(routes, DomainKey).Keys == Domains(routes)
  {
    TableHolds(routes, DomainKey);
    hide Table, NormalizeDomain;
  }

  lemma DraftKeys(routes: seq<LbRouteRule>)
    ensures forall x :: x in Table(StoredDrafts(routes), DomainKey) <==> exists route <- routes :: DomainKey(route) == x
    ensures forall x <- Table(StoredDrafts(routes), DomainKey) ::
              exists route <- routes :: Table(StoredDrafts(routes), DomainKey)[x] == StoredDraft(route)
  {
    forall x | x in Table(StoredDrafts(routes), DomainKey)
      ensures exists route <- routes :: DomainKey(route) == x && Table(StoredDrafts(routes), DomainKey)[x] == StoredDraft(route)
    {
      var route := DraftOf(routes, x);
      hide *;
    }
    forall route | route in routes ensures DomainKey(route) in Table(StoredDrafts(routes), DomainKey) {
      DraftIsStored(routes, route);
      hide *;
    }
    hide *;
  }

  lemma DraftOf(routes: seq<LbRouteRule>, x: string) returns (route: LbRouteRule)
    requires x in Table(StoredDrafts(routes), DomainKey)
    ensures route in routes && DomainKey(route) == x && Table(StoredDrafts(routes), DomainKey)[x] == StoredDraft(route)
  {
    var stored := StoredDrafts(routes);
    TableHolds(stored, DomainKey);
    hide Table, DomainKey, StoredDraft;
    var i :| 0 <= i < |stored| && stored[i] == Table(stored, DomainKey)[x];
    route := routes[i];
    StoredUnderDomain(route);
  }

  lemma DraftIsStored(routes: seq<LbRouteRule>, route: LbRouteRule)
    requires route in routes
    ensures DomainKey(route) in Table(StoredDrafts(routes), DomainKey)
  {
    var stored := StoredDrafts(routes);
    TableHolds(stored, DomainKey);
    StoredUnderDomain(route);
    hide Table, DomainKey, StoredDraft;
    var i :| 0 <= i < |routes| && routes[i] == route;
    assert stored[i] in stored;
  }

  lemma CanDropRoutes(parse: UrlParser, lb0: LoadBalancerConfig, drafted: map<string, LbRouteRule>,
                      lb1: LoadBalancerConfig, lb2: LoadBalancerConfig, current: seq<string>)
    requires forall route <- lb0.routes :: DomainSafe(route)
    requires lb1.routes == lb0.routes
    requires RoutesAre(parse, lb1, Table(lb1.routes, DomainKey) + drafted, lb2)
    requires forall domain <- current :: domain in Domains(lb0.routes)
    requires NoRepeats(current)
    ensures DropRoutesReady(parse, lb2, current)
  {
    DomainsAreKeys(lb0.routes);
    hide Trim, Table, LbValid, PathSafe;
    forall domain | domain in current
      ensures domain in Table(lb2.routes, DomainKey) && PathSafe(domain) && NormalizeDomain(domain) == domain
    {
      var route :| route in lb0.routes && route.domain == domain;
      assert DomainSafe(route);
    }
  }

  /** Once the stale domains are gone every route is a drafted one; whether all of those are left depends on
      how they are spelled. */
  lemma RoutesSettle(lb0: LoadBalancerConfig, routes: seq<LbRouteRule>, current: seq<string>)
    requires forall route <- lb0.routes :: DomainKey(route) == route.domain
    requires forall domain :: domain in current <==> domain in Domains(lb0.routes)
    ensures var a, b := Table(lb0.routes, DomainKey), Table(StoredDrafts(routes), DomainKey);
            var left := (a + b) - Unwanted(current, Domains(routes));
            && (forall x <- left :: x in b && left[x] == b[x])
            && (left == b <==> KeepsRoutes(lb0, routes))
  {
    DomainsAreKeys(lb0.routes);
    DraftKeys(routes);
    SpelledNormally(lb0.routes, routes);
    hide Table, DomainKey, StoredDrafts, StoredDraft;
    var a, b := Table(lb0.routes, DomainKey), Table(StoredDrafts(routes), DomainKey);
    var left := (a + b) - Unwanted(current, Domains(routes));
    forall x | x in left ensures x in b {
      if x in a {
        var route :| route in routes && route.domain == x;
        assert DomainKey(route) == x;
      }
    }
    LeftIsAll(a, b, Unwanted(current, Domains(routes)));
    forall x | x in a && x in b ensures x in Unwanted(current, Domains(routes)) <==> x !in Domains(routes) {
      assert x in current;
    }
    hide Unwanted, Domains;
    if left == b {
      forall route | route in routes && DomainKey(route) in Domains(lb0.routes) ensures DomainKey(route) in Domains(routes) {
        assert DomainKey(route) in b;
      }
    } else {
      var x :| x in a && x in b && x in Unwanted(current, Domains(routes));
      var route :| route in routes && DomainKey(route) == x;
    }
  }

  /** Drafted domains that the server has as they are spelled are normal. */
  lemma SpelledNormally(current: seq<LbRouteRule>, routes: seq<LbRouteRule>)
    requires forall route <- current :: DomainKey(route) == route.domain
    ensures forall route <- routes :: route.domain in Domains(current) ==> DomainKey(route) == route.domain
  {
    hide NormalizeDomain;
  }

  /** Adding b to a and removing what is not in b gives b back exactly when nothing of b is removed. */
  lemma LeftIsAll<K(!new), V>(a: map<K, V>, b: map<K, V>, gone: set<K>)
    requires gone <= a.Keys && forall k <- (a + b) - gone :: k in b
    ensures (a + b) - gone == b <==> forall k :: k in a && k in b ==> k !in gone
  {
    var left := (a + b) - gone;
    assert forall k <- left :: left[k] == b[k];
    if forall k :: k in a && k in b ==> k !in gone {
      assert forall k <- b :: k in left;
    } else {
      var k :| k in a && k in b && k in gone;
      assert k !in left;
    }
  }

  /** The routes left are valid over the drafted pools alone. */
  lemma RoutesLeftAreDrafted(lb: LoadBalancerConfig, routes: seq<LbRouteRule>, desired: set<string>)
    requires forall x <- Table(lb.routes, DomainKey) ::
               x in Table(StoredDrafts(routes), DomainKey) && Table(lb.routes, DomainKey)[x] == Table(StoredDrafts(routes), DomainKey)[x]
    requires Distinct(lb.routes, DomainKey)
    requires forall route <- routes :: RouteValid(desired, StoredDraft(route))
    ensures forall route <- lb.routes :: RouteValid(desired, route)
  {
    TableHolds(lb.routes, DomainKey);
    DraftKeys(routes);
    hide Table, DomainKey, StoredDrafts, StoredDraft, RouteValid, Distinct;
    forall route | route in lb.routes ensures RouteValid(desired, route) {
      assert DomainKey(route) in Table(lb.routes, DomainKey) && Table(lb.routes, DomainKey)[DomainKey(route)] == route;
    }
  }

  lemma CanDropPools(parse: UrlParser, lb: LoadBalancerConfig, pools: seq<LbPool>, order: seq<string>)
    requires LbValid(parse, lb) && InOrder(lb.pools, order) && NoRepeats(order)
    requires forall id <- order :: id in PoolIds(lb.pools) && PathSafe(id)
    requires forall pool <- pools :: !EarlierTwin(order, pool.id)
    requires forall route <- lb.routes :: RouteValid(DraftIds(pools), route)
    ensures DropPoolsReady(parse, lb, order, DraftIds(pools))
  {
    hide LbValid, InOrder, PathSafe, EarlierTwin, RouteValid, PoolIds;
  }

  /** Equal tables of sequences without repeated keys hold the same elements, once each. */
  lemma SameTableSameElements<T>(a: seq<T>, b: seq<T>, key: T -> string)
    requires Distinct(a, key) && Distinct(b, key) && Table(a, key) == Table(b, key)
    ensures Elements(a) == Elements(b) && |a| == |b|
  {
    TableHolds(a, key);
    TableHolds(b, key);
    hide Table, Distinct;
  }

  /** The server now holds the draft: its pools, each once, and its routes by domain. */
  ghost predicate Holds(parse: UrlParser, lb: LoadBalancerConfig, pools: seq<LbPool>, routes: seq<LbRouteRule>) {
    && LbValid(parse, lb)
    && Elements(lb.pools) == Elements(StoredPools(pools)) && |lb.pools| == |pools|
    && Distinct(lb.routes, DomainKey) && Table(lb.routes, DomainKey) == Table(StoredDrafts(routes), DomainKey)
  }

  function TrimmedIds(pools: seq<LbPool>): (r: seq<string>)
    ensures |r| == |pools| && forall i :: 0 <= i < |pools| ==> r[i] == Trim(pools[i].id)
  {
    seq(|pools|, i requires 0 <= i < |pools| => Trim(pools[i].id))
  }

  function TrimmedDomains(routes: seq<LbRouteRule>): (r: seq<string>)
    ensures |r| == |routes| && forall i :: 0 <= i < |routes| ==> r[i] == Trim(routes[i].domain)
  {
    seq(|routes|, i requires 0 <= i < |routes| => Trim(routes[i].domain))
  }

  lemma TrimmedDomainsAreDomains(routes: seq<LbRouteRule>, current: seq<string>)
    requires forall route <- routes :: DomainSafe(route)
    requires forall x :: x in current <==> x in TrimmedDomains(routes) && x != ""
    ensures forall x :: x in current <==> x in Domains(routes)
  {
    var domains := TrimmedDomains(routes);
    forall i | 0 <= i < |routes| ensures domains[i] == routes[i].domain && domains[i] != "" {
      assert DomainSafe(routes[i]);
      PathSafeIsBare(routes[i].domain);
    }
    hide Trim, DomainSafe, TrimmedDomains;
    forall x | x in Domains(routes) ensures x in domains {
      var i :| 0 <= i < |routes| && routes[i].domain == x;
      assert domains[i] == x;
    }
    forall x | x in domains ensures x in Domains(routes) {
      var i :| 0 <= i < |domains| && domains[i] == x;
      assert routes[i] in routes;
    }
  }

  lemma TrimmedRoutesAreTrimmed(routes: seq<LbRouteRule>)
    ensures forall route <- TrimmedRoutes(routes) ::
              Trim(route.poolId) == route.poolId && Trim(route.fallbackPoolId) == route.fallbackPoolId
  {
    forall i | 0 <= i < |routes|
      ensures var route := TrimmedRoutes(routes)[i];
              Trim(route.poolId) == route.poolId && Trim(route.fallbackPoolId) == route.fallbackPoolId
    {
      TrimIdempotent(routes[i].poolId);
      TrimIdempotent(routes[i].fallbackPoolId);
    }
  }

  lemma TrimmedPoolsAreTrimmed(pools: seq<LbPool>)
    ensures forall pool <- TrimmedPools(pools) :: Trim(pool.id) == pool.id
  {
    forall i | 0 <= i < |pools| ensures Trim(TrimmedPools(pools)[i].id) == TrimmedPools(pools)[i].id {
      TrimIdempotent(pools[i].id);
    }
  }

  /** The default once the save is over: kept, unless its pool was not in the draft. */
  function DefaultKept(lb: LoadBalancerConfig, pools: seq<LbPool>): string {
    if Trim(lb.defaultPoolId) in PoolIds(lb.pools) - DraftIds(pools) then "" else lb.defaultPoolId
  }

  lemma DefaultIsKept(parse: UrlParser, lb: LoadBalancerConfig, pools: seq<LbPool>, order: seq<string>)
    requires LbValid(parse, lb) && IsOrderOf(order, lb.pools) && KeepsPools(lb, pools)
    ensures DefaultAfter(lb.defaultPoolId, Unwanted(order, DraftIds(pools))) == DefaultKept(lb, pools)
  {
    OrderIsIds(parse, lb, order);
    assert "" !in PoolIds(lb.pools);
    TrimOfNothing();
    assert ToLower("") == "" && forall id <- order :: |ToLower(id)| == |id|;
    SameFolds(Trim(lb.defaultPoolId));
    hide Trim, PoolIds, PoolsValid, RouteValid, ToLower, DraftIds;
  }

  /** A pool that is gone keeps the server from holding the draft. */
  lemma LostPoolIsNotHeld(parse: UrlParser, lb: LoadBalancerConfig, pools: seq<LbPool>, routes: seq<LbRouteRule>, id: string)
    requires id in DraftIds(pools) && id !in PoolIds(lb.pools) && forall pool <- pools :: Trim(pool.id) == pool.id
    ensures !Holds(parse, lb, pools, routes)
  {
    hide Trim, LbValid;
    var i :| 0 <= i < |pools| && pools[i].id == id;
    assert pools[i] in pools;
    StoredUnderOwnId(pools, i);
    var stored := StoredPools(pools)[i];
    assert stored in Elements(StoredPools(pools));
    assert forall pool <- lb.pools :: PoolKey(pool) != "" ==> PoolKey(pool) in PoolIds(lb.pools);
  }

  /** When no lookup goes wrong the pools are the draft's, so only the routes decide. */
  lemma HeldIff(parse: UrlParser, lb0: LoadBalancerConfig, pools: seq<LbPool>, routes: seq<LbRouteRule>, order: seq<string>,
                lb3: LoadBalancerConfig, lb4: LoadBalancerConfig)
    requires PoolsReady(parse, lb0, pools, order) && KeepsPools(lb0, pools)
    requires Table(lb3.pools, PoolKey) == Table(lb0.pools, PoolKey) + Table(StoredPools(pools), PoolKey)
    requires lb3.defaultPoolId == lb0.defaultPoolId && Distinct(lb3.routes, DomainKey)
    requires Table(lb3.routes, DomainKey) == Table(StoredDrafts(routes), DomainKey) <==> KeepsRoutes(lb0, routes)
    requires PoolsAre(parse, lb3, Unwanted(order, DraftIds(pools)), order, lb4)
    ensures Holds(parse, lb4, pools, routes) <==> KeepsRoutes(lb0, routes)
    ensures lb4.defaultPoolId == DefaultKept(lb0, pools)
  {
    DefaultIsKept(parse, lb0, pools, order);
    PoolsHeld(parse, lb0, pools, order, lb3, lb4);
    hide Trim, Table, PoolIds, DraftIds, LbValid, Distinct, StoredPools, StoredDrafts, KeepsPools, KeepsRoutes, DefaultAfter,
         DefaultKept, InOrder, PathSafe, PoolKey, DomainKey, Unwanted, Elements;
  }

  /** The pools of both sides less the undrafted are the drafted, once each. */
  lemma PoolsHeld(parse: UrlParser, lb0: LoadBalancerConfig, pools: seq<LbPool>, order: seq<string>,
                  lb3: LoadBalancerConfig, lb4: LoadBalancerConfig)
    requires PoolsReady(parse, lb0, pools, order)
    requires Table(lb3.pools, PoolKey) == Table(lb0.pools, PoolKey) + Table(StoredPools(pools), PoolKey)
    requires PoolsAre(parse, lb3, Unwanted(order, DraftIds(pools)), order, lb4)
    ensures Elements(lb4.pools) == Elements(StoredPools(pools)) && |lb4.pools| == |pools|
  {
    OrderIsIds(parse, lb0, order);
    PoolIdsAreKeys(parse, lb0.pools);
    StoredIdsAreDraftIds(parse, pools);
    assert |StoredPools(pools)| == |pools|;
    assert Distinct(lb4.pools, PoolKey);
    hide Trim, Table, PoolIds, DraftIds, PoolValid, Distinct, StoredPools, RouteValid, DefaultAfter, DefaultValid, InOrder,
         PathSafe, PoolKey, Elements;
    var a, b := Table(lb0.pools, PoolKey), Table(StoredPools(pools), PoolKey);
    assert Unwanted(order, DraftIds(pools)) == a.Keys - b.Keys;
    OnlyTheAddedRemain(a, b, Unwanted(order, DraftIds(pools)));
    SameTableSameElements(lb4.pools, StoredPools(pools), PoolKey);
  }

  /** Saving a draft. A well-formed draft ends up on the server exactly when no pool that it keeps has a case
      twin there and no route that it keeps is spelled in another case; the first alone decides whether every
      request is accepted, and then every balancer in between is valid. */
  method SaveLoadBalancer(server: Server, draft: LoadBalancerConfig, generatedId: string)
    returns (outcome: Outcome, ghost exchanges: seq<Exchange>)
    modifies server
    ensures server.log == old(server.log) + exchanges
    ensures var pools, routes := TrimmedPools(draft.pools), TrimmedRoutes(draft.routes);
            var lb0 := old(server.current).loadBalancer;
            && (outcome == DraftInvalid <==> !DraftFilled(pools, routes))
            && (outcome == DraftInvalid ==> server.current == old(server.current) && exchanges == [])
            && (old(server.current).routing == EMPTY_ROUTING && Pushable(server.parse, lb0, pools, routes) ==>
                  && (outcome == Saved && Holds(server.parse, server.current.loadBalancer, pools, routes)
                      <==> KeepsPools(lb0, pools) && KeepsRoutes(lb0, routes))
                  && (KeepsPools(lb0, pools) ==>
                        && outcome == Saved
                        && AllAccepted(server.parse, exchanges)
                        && server.current.routing == EMPTY_ROUTING
                        && server.current.loadBalancer.defaultPoolId == DefaultKept(lb0, pools)))
  {
    hide Trim, Pushable, DraftFilled, AllAccepted, LbValid, PoolsReady, RoutesReady, DropRoutesReady, DropPoolsReady, Table,
         PoolIds, DraftIds, Domains, TrimmedPools, TrimmedRoutes, StoredPools, StoredDrafts, RoutesAre, PoolsAre, PoolsPushed,
         Holds, KeepsPools, KeepsRoutes, EarlierTwin, Misses, DefaultKept;
    exchanges := [];
    var pools, routes := TrimmedPools(draft.pools), TrimmedRoutes(draft.routes);
    if !DraftFilled(pools, routes) {
      PushableIsFilled(server.parse, server.current.loadBalancer, pools, routes);
      return DraftInvalid, exchanges;
    }
    ghost var lb0 := server.current.loadBalancer;
    ghost var good := server.current.routing == EMPTY_ROUTING && Pushable(server.parse, lb0, pools, routes);
    var currentPoolIds := UniqueNonBlank(TrimmedIds(server.current.loadBalancer.pools));
    var currentDomains := UniqueNonBlank(TrimmedDomains(server.current.loadBalancer.routes));
    var desiredPoolIds, desiredDomains := DraftIds(pools), Domains(routes);
    if good {
      SaveIsReady(server.parse, lb0, draft, currentPoolIds, currentDomains);
    }
    var ok;
    ghost var s1, s2, s3, s4;
    ok, s1 := PushPools(server, pools, Elements(currentPoolIds), generatedId, currentPoolIds);
    if !ok {
      return RequestFailed, s1;
    }
    ghost var lb1 := server.current.loadBalancer;
    if good {
      RoutesMayGo(server.parse, lb0, draft, currentPoolIds, lb1);
    }
    ok, s2 := PushRoutes(server, routes);
    if !ok {
      return RequestFailed, s1 + s2;
    }
    ghost var lb2 := server.current.loadBalancer;
    if good {
      StaleRoutesMayGo(server.parse, lb0, draft, currentPoolIds, currentDomains, lb1, lb2);
    }
    ok, s3 := DropRoutes(server, currentDomains, desiredDomains);
    if !ok {
      return RequestFailed, s1 + s2 + s3;
    }
    ghost var lb3 := server.current.loadBalancer;
    if good {
      StalePoolsMayGo(server.parse, lb0, draft, currentPoolIds, currentDomains, lb1, lb2, lb3);
    }
    ok, s4 := DropPools(server, currentPoolIds, desiredPoolIds);
    if !ok {
      return RequestFailed, s1 + s2 + s3 + s4;
    }
    if good {
      SaveEnds(server.parse, lb0, draft, currentPoolIds, lb3, server.current.loadBalancer);
      if KeepsPools(lb0, pools) {
        AllAcceptedTogether(server.parse, s1, s2, s3, s4);
      }
    }
    return Saved, s1 + s2 + s3 + s4;
  }

  lemma PushableIsFilled(parse: UrlParser, lb: LoadBalancerConfig, pools: seq<LbPool>, routes: seq<LbRouteRule>)
    ensures Pushable(parse, lb, pools, routes) ==> DraftFilled(pools, routes)
  {
  }

  lemma AllAcceptedTogether(parse: UrlParser, s1: seq<Exchange>, s2: seq<Exchange>, s3: seq<Exchange>, s4: seq<Exchange>)
    requires AllAccepted(parse, s1) && AllAccepted(parse, s2) && AllAccepted(parse, s3) && AllAccepted(parse, s4)
    ensures AllAccepted(parse, s1 + s2 + s3 + s4)
  {
    hide LbValid;
  }

  /** What is known before the first request. */
  lemma SaveIsReady(parse: UrlParser, lb0: LoadBalancerConfig, draft: LoadBalancerConfig, order: seq<string>, domains: seq<string>)
    requires var pools, routes := TrimmedPools(draft.pools), TrimmedRoutes(draft.routes); Pushable(parse, lb0, pools, routes)
    requires var ids := TrimmedIds(lb0.pools); NoRepeats(ids) && "" !in ids ==> order == ids
    requires forall x :: x in domains <==> x in TrimmedDomains(lb0.routes) && x != ""
    ensures var pools, routes := TrimmedPools(draft.pools), TrimmedRoutes(draft.routes);
            && PoolsReady(parse, lb0, pools, order)
            && (KeepsPools(lb0, pools) <==>
                  && (forall pool <- pools :: !EarlierTwin(order, pool.id))
                  && (forall j :: 0 <= j < |order| ==> !Misses(order, DraftIds(pools), j)))
    ensures forall x :: x in domains <==> x in Domains(lb0.routes)
  {
    var pools, routes := TrimmedPools(draft.pools), TrimmedRoutes(draft.routes);
    TrimmedPoolsAreTrimmed(draft.pools);
    CurrentIsOrder(parse, lb0, order);
    CanPushPools(parse, lb0, pools, routes, order);
    KeepsPoolsIff(parse, lb0, pools, order);
    TrimmedDomainsAreDomains(lb0.routes, domains);
    hide *;
  }

  lemma RoutesMayGo(parse: UrlParser, lb0: LoadBalancerConfig, draft: LoadBalancerConfig, order: seq<string>, lb1: LoadBalancerConfig)
    requires var pools, routes := TrimmedPools(draft.pools), TrimmedRoutes(draft.routes);
             && Pushable(parse, lb0, pools, routes) && PoolsReady(parse, lb0, pools, order)
             && PoolsPushed(parse, lb0, pools, order, lb1)
    ensures RoutesReady(parse, lb1, TrimmedRoutes(draft.routes))
  {
    var pools, routes := TrimmedPools(draft.pools), TrimmedRoutes(draft.routes);
    TrimmedRoutesAreTrimmed(draft.routes);
    CanPushRoutes(parse, lb0, pools, routes, order, lb1);
    hide *;
  }

  lemma StaleRoutesMayGo(parse: UrlParser, lb0: LoadBalancerConfig, draft: LoadBalancerConfig, order: seq<string>,
                         domains: seq<string>, lb1: LoadBalancerConfig, lb2: LoadBalancerConfig)
    requires var pools, routes := TrimmedPools(draft.pools), TrimmedRoutes(draft.routes);
             && Pushable(parse, lb0, pools, routes) && PoolsPushed(parse, lb0, pools, order, lb1)
             && RoutesAre(parse, lb1, Table(lb1.routes, DomainKey) + Table(StoredDrafts(routes), DomainKey), lb2)
    requires NoRepeats(domains) && forall x :: x in domains <==> x in Domains(lb0.routes)
    ensures DropRoutesReady(parse, lb2, domains)
  {
    hide Trim, LbValid, Table, PoolIds, DraftIds, Domains, DomainSafe, RoutesAre, InOrder, StoredDrafts, DropRoutesReady;
    CanDropRoutes(parse, lb0, Table(StoredDrafts(TrimmedRoutes(draft.routes)), DomainKey), lb1, lb2, domains);
  }

  /** What the first three phases leave behind: the pools of both sides and drafted routes only. */
  ghost predicate Settled(parse: UrlParser, lb0: LoadBalancerConfig, pools: seq<LbPool>, routes: seq<LbRouteRule>,
                          lb: LoadBalancerConfig) {
    && lb.defaultPoolId == lb0.defaultPoolId && Distinct(lb.routes, DomainKey)
    && Table(lb.pools, PoolKey) == Table(lb0.pools, PoolKey) + Table(StoredPools(pools), PoolKey)
    && (Table(lb.routes, DomainKey) == Table(StoredDrafts(routes), DomainKey) <==> KeepsRoutes(lb0, routes))
  }

  lemma StalePoolsMayGo(parse: UrlParser, lb0: LoadBalancerConfig, draft: LoadBalancerConfig, order: seq<string>,
                        domains: seq<string>, lb1: LoadBalancerConfig, lb2: LoadBalancerConfig, lb3: LoadBalancerConfig)
    requires var pools, routes := TrimmedPools(draft.pools), TrimmedRoutes(draft.routes);
             && Pushable(parse, lb0, pools, routes) && PoolsReady(parse, lb0, pools, order)
             && PoolsPushed(parse, lb0, pools, order, lb1)
             && (forall pool <- pools :: !EarlierTwin(order, pool.id))
             && RoutesAre(parse, lb1, Table(lb1.routes, DomainKey) + Table(StoredDrafts(routes), DomainKey), lb2)
             && RoutesAre(parse, lb2, Table(lb2.routes, DomainKey) - Unwanted(domains, Domains(routes)), lb3)
    requires forall x :: x in domains <==> x in Domains(lb0.routes)
    ensures var pools, routes := TrimmedPools(draft.pools), TrimmedRoutes(draft.routes);
            DropPoolsReady(parse, lb3, order, DraftIds(pools)) && Settled(parse, lb0, pools, routes, lb3)
  {
    var pools, routes := TrimmedPools(draft.pools), TrimmedRoutes(draft.routes);
    TrimmedRoutesAreTrimmed(draft.routes);
    CanPushRoutes(parse, lb0, pools, routes, order, lb1);
    OrderIsIds(parse, lb0, order);
    assert forall route <- lb0.routes :: DomainSafe(route);
    hide Trim, LbValid, Table, PoolIds, DraftIds, Domains, PathSafe, InOrder, StoredDrafts, EarlierTwin, RouteValid,
         StoredPools, Distinct, TrimmedPools, TrimmedRoutes, DomainKey, StoredDraft, RouteReady, Unwanted, KeepsRoutes, Pushable;
    RoutesSettle(lb0, routes, domains);
    RoutesLeftAreDrafted(lb3, routes, DraftIds(pools));
    CanDropPools(parse, lb3, pools, order);
  }

  lemma SaveEnds(parse: UrlParser, lb0: LoadBalancerConfig, draft: LoadBalancerConfig, order: seq<string>,
                 lb3: LoadBalancerConfig, lb4: LoadBalancerConfig)
    requires var pools, routes := TrimmedPools(draft.pools), TrimmedRoutes(draft.routes);
             && PoolsReady(parse, lb0, pools, order) && Settled(parse, lb0, pools, routes, lb3)
             && (KeepsPools(lb0, pools) ==> PoolsAre(parse, lb3, Unwanted(order, DraftIds(pools)), order, lb4))
             && (!KeepsPools(lb0, pools) ==> exists lost <- DraftIds(pools) :: lost !in PoolIds(lb4.pools))
    ensures var pools, routes := TrimmedPools(draft.pools), TrimmedRoutes(draft.routes);
            && (Holds(parse, lb4, pools, routes) <==> KeepsPools(lb0, pools) && KeepsRoutes(lb0, routes))
            && (KeepsPools(lb0, pools) ==> lb4.defaultPoolId == DefaultKept(lb0, pools))
  {
    var pools, routes := TrimmedPools(draft.pools), TrimmedRoutes(draft.routes);
    TrimmedPoolsAreTrimmed(draft.pools);
    if KeepsPools(lb0, pools) {
      HeldIff(parse, lb0, pools, routes, order, lb3, lb4);
    } else {
      var lost :| lost in DraftIds(pools) && lost !in PoolIds(lb4.pools);
      LostPoolIsNotHeld(parse, lb4, pools, routes, lost);
    }
    hide *;
  }
}
