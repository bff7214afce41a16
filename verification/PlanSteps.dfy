/** The requests of the console's save, one at a time: which pool a lookup finds, and what each accepted
    request makes of the server's pools and routes, read as tables. */
module PlanSteps {
  import opened Wrappers
  import opened ConfigTypes
  import opened LbAdmin
  import opened Prepare
  import opened Seqs
  import opened Text
  import opened Validation

  /** A draft pool as the server stores it. */
  function StoredPool(pool: LbPool): LbPool {
    UpdatedPool(pool.id, pool)
  }

  function StoredPools(pools: seq<LbPool>): seq<LbPool> {
    seq(|pools|, i requires 0 <= i < |pools| => StoredPool(pools[i]))
  }

  /** An identifier that reaches the server unchanged as the tail of a path. */
  predicate PathSafe(id: string) {
    id != "" && PathTail(id) == id
  }

  lemma PathSafeIsBare(id: string)
    requires PathSafe(id)
    ensures Trim(id) == id
  {
    TrimIdempotent(TrimBy(id, IsSlash));
  }

  // Which pool a lookup finds

  lemma PoolIdsAreKeys(parse: UrlParser, pools: seq<LbPool>)
    requires PoolsValid(parse, pools)
    ensures PoolIds(pools) == Table(pools, PoolKey).Keys
  {
    TableHolds(pools, PoolKey);
    hide Trim, Table, NodesValid;
    assert forall pool <- pools :: PoolValid(parse, pool);
  }

  /** The first pool whose identifier differs from this one by case at most. */
  lemma FoundIsFirst(pools: seq<LbPool>, id: string)
    requires Trim(id) == id
    ensures var i := FindPool(pools, id);
            && (i >= 0 <==> exists pool <- pools :: EqualFold(PoolKey(pool), id))
            && (i >= 0 ==> i < |pools| && EqualFold(PoolKey(pools[i]), id))
            && (forall j :: 0 <= j < |pools| && EqualFold(PoolKey(pools[j]), id) ==> 0 <= i <= j)
  {
    FirstIndexIsFirst(pools, FoldsTo(ToLower(id)));
    FoundIffPresent(pools, FoldsTo(ToLower(id)));
    hide Trim, ToLower, FirstIndex;
    assert forall pool <- pools :: FoldsTo(ToLower(id))(pool) <==> EqualFold(PoolKey(pool), id);
  }

  /** Looking up the pools of a list by their own identifiers is exact if and only if no two of these differ only
      in case. */
  lemma LookupsExactIff(pools: seq<LbPool>)
    ensures (forall i :: 0 <= i < |pools| ==> FindPool(pools, PoolKey(pools[i])) == i)
       <==> (forall i, j :: 0 <= i < j < |pools| ==> !EqualFold(PoolKey(pools[i]), PoolKey(pools[j])))
  {
    forall i | 0 <= i < |pools| ensures Trim(PoolKey(pools[i])) == PoolKey(pools[i]) {
      TrimIdempotent(pools[i].id);
    }
    hide Trim, ToLower, FindPool, PoolKey;
    forall i | 0 <= i < |pools| ensures 0 <= FindPool(pools, PoolKey(pools[i])) <= i {
      FoundIsFirst(pools, PoolKey(pools[i]));
    }
    if forall i, j :: 0 <= i < j < |pools| ==> !EqualFold(PoolKey(pools[i]), PoolKey(pools[j])) {
      forall i | 0 <= i < |pools| ensures FindPool(pools, PoolKey(pools[i])) == i {
        FoundIsFirst(pools, PoolKey(pools[i]));
      }
    }
    if i, j :| 0 <= i < j < |pools| && EqualFold(PoolKey(pools[i]), PoolKey(pools[j])) {
      FoundIsFirst(pools, PoolKey(pools[j]));
    }
  }

  /** With two pools whose identifiers differ only in case, deleting the second removes the first. */
  lemma CaseTwinsAreConfused(parse: UrlParser, kept: LbPool, dropped: LbPool)
    requires PoolValid(parse, kept) && PoolValid(parse, dropped)
    requires PoolKey(kept) != PoolKey(dropped) && EqualFold(PoolKey(kept), PoolKey(dropped))
    ensures var lb := LoadBalancerConfig("", [kept, dropped], []);
            && LbValid(parse, lb)
            && FindPool(lb.pools, PoolKey(dropped)) == 0
            && WithoutPool(lb, 0, PoolKey(dropped)).pools == [dropped]
            && Admissible(parse, Config(EMPTY_ROUTING, WithoutPool(lb, 0, PoolKey(dropped))))
  {
    var pools := [kept, dropped];
    var lb := LoadBalancerConfig("", pools, []);
    TrimIdempotent(dropped.id);
    FoundIsFirst(pools, PoolKey(dropped));
    assert kept == pools[0];
    assert EqualFold(PoolKey(pools[0]), PoolKey(dropped));
    ApartIsDistinct([], kept);
    ApartIsDistinct([kept], dropped);
    hide Trim, EqualFold, FindPool, PoolValid, PoolKey, Distinct, Admissible;
    PoolsAloneAreValid(parse, pools);
    var after := WithoutPool(lb, 0, PoolKey(dropped));
    assert after.pools == [dropped] && after.routes == [] && after.defaultPoolId == "";
    ApartIsDistinct([], dropped);
    PoolsAloneAreValid(parse, [dropped]);
    AdmissibleIffValid(parse, Config(EMPTY_ROUTING, after));
  }

  lemma ApartIsDistinct(front: seq<LbPool>, pool: LbPool)
    requires Distinct(front, PoolKey) && forall other <- front :: PoolKey(other) != PoolKey(pool)
    ensures Distinct(front + [pool], PoolKey)
  {
    DistinctSnoc(front, pool, PoolKey);
    hide PoolKey;
  }

  lemma PoolsAloneAreValid(parse: UrlParser, pools: seq<LbPool>)
    requires (forall pool <- pools :: PoolValid(parse, pool)) && Distinct(pools, PoolKey)
    ensures LbValid(parse, LoadBalancerConfig("", pools, []))
  {
    hide Trim, PoolValid, PoolKey, Distinct;
  }

  // The server's pools keep their order

  /** Where a key first stands; past the end when it does not. */
  function Rank(order: seq<string>, key: string): (r: nat)
    ensures r <= |order|
    ensures r < |order| ==> order[r] == key
    ensures r == |order| <==> key !in order
  {
    if order == [] then 0 else if order[0] == key then 0 else 1 + Rank(order[1..], key)
  }

  predicate NoRepeats(order: seq<string>) {
    forall i, j :: 0 <= i < j < |order| ==> order[i] != order[j]
  }

  lemma RankAt(order: seq<string>, j: nat)
    requires NoRepeats(order) && j < |order|
    ensures Rank(order, order[j]) == j
  {
  }

  /** Pools with ranked keys stand in the order of their ranks, and before all others. */
  predicate InOrder(pools: seq<LbPool>, order: seq<string>) {
    forall p, q :: 0 <= p < q < |pools| && PoolKey(pools[q]) in order ==>
      Rank(order, PoolKey(pools[p])) < Rank(order, PoolKey(pools[q]))
  }

  lemma OwnOrder(pools: seq<LbPool>, order: seq<string>)
    requires NoRepeats(order) && |order| == |pools| && forall j :: 0 <= j < |pools| ==> order[j] == PoolKey(pools[j])
    ensures InOrder(pools, order)
  {
    hide Rank, PoolKey;
    forall p, q | 0 <= p < q < |pools| ensures Rank(order, PoolKey(pools[p])) < Rank(order, PoolKey(pools[q])) {
      RankAt(order, p);
      RankAt(order, q);
    }
  }

  lemma SameKeysInOrder(pools: seq<LbPool>, order: seq<string>, i: nat, pool: LbPool)
    requires InOrder(pools, order) && i < |pools| && PoolKey(pool) == PoolKey(pools[i])
    ensures InOrder(pools[i := pool], order)
  {
    hide Rank, PoolKey;
    var after := pools[i := pool];
    assert forall j :: 0 <= j < |pools| ==> PoolKey(after[j]) == PoolKey(pools[j]);
  }

  lemma AppendedInOrder(pools: seq<LbPool>, order: seq<string>, pool: LbPool)
    requires InOrder(pools, order) && PoolKey(pool) !in order
    ensures InOrder(pools + [pool], order)
  {
    hide Rank, PoolKey;
    var after := pools + [pool];
    assert forall j :: 0 <= j < |pools| ==> after[j] == pools[j];
  }

  lemma RemovedInOrder(pools: seq<LbPool>, order: seq<string>, i: nat)
    requires InOrder(pools, order) && i < |pools|
    ensures InOrder(Without(pools, i), order)
  {
    WithoutAt(pools, i);
    hide Rank, PoolKey, Without;
    var after := Without(pools, i);
    forall p, q | 0 <= p < q < |after| && PoolKey(after[q]) in order
      ensures Rank(order, PoolKey(after[p])) < Rank(order, PoolKey(after[q]))
    {
      assert after[p] == pools[if p < i then p else p + 1] && after[q] == pools[if q < i then q else q + 1];
    }
  }

  /** A pool standing earlier in the order whose identifier differs only in case. */
  predicate HasEarlierTwin(pools: seq<LbPool>, order: seq<string>, j: nat)
    requires j < |order|
  {
    exists pool <- pools :: Rank(order, PoolKey(pool)) < j && EqualFold(PoolKey(pool), order[j])
  }

  /** The lookup of a ranked identifier is exact if and only if it has no earlier twin; if it has, it finds one. */
  lemma LookupExactIff(pools: seq<LbPool>, order: seq<string>, j: nat)
    requires InOrder(pools, order) && NoRepeats(order) && j < |order| && Trim(order[j]) == order[j]
    requires exists pool <- pools :: PoolKey(pool) == order[j]
    ensures var i := FindPool(pools, order[j]);
            && 0 <= i < |pools| && EqualFold(PoolKey(pools[i]), order[j])
            && (PoolKey(pools[i]) == order[j] <==> !HasEarlierTwin(pools, order, j))
            && (PoolKey(pools[i]) != order[j] ==> Rank(order, PoolKey(pools[i])) < j)
  {
    FoundIsFirst(pools, order[j]);
    RankAt(order, j);
    hide Trim, EqualFold, FindPool, PoolKey, Rank;
    var q :| 0 <= q < |pools| && PoolKey(pools[q]) == order[j];
    SameFolds(order[j]);
    FoundBeforeIff(pools, order, j, q, FindPool(pools, order[j]));
    hide *;
  }

  lemma SameFolds(id: string)
    ensures EqualFold(id, id)
  {
  }

  lemma FoundBeforeIff(pools: seq<LbPool>, order: seq<string>, j: nat, q: nat, i: nat)
    requires InOrder(pools, order) && j < |order| && Rank(order, order[j]) == j
    requires i <= q < |pools| && PoolKey(pools[q]) == order[j]
    requires EqualFold(PoolKey(pools[i]), order[j])
    requires forall p :: 0 <= p < |pools| && EqualFold(PoolKey(pools[p]), order[j]) ==> i <= p
    ensures PoolKey(pools[i]) == order[j] <==> i == q
    ensures i == q <==> !HasEarlierTwin(pools, order, j)
    ensures i < q ==> Rank(order, PoolKey(pools[i])) < j
  {
    hide EqualFold, PoolKey, Rank, InOrder;
    if i < q {
      InOrderAt(pools, order, i, q);
      assert pools[i] in pools;
    } else if HasEarlierTwin(pools, order, j) {
      var p :| 0 <= p < |pools| && Rank(order, PoolKey(pools[p])) < j && EqualFold(PoolKey(pools[p]), order[j]);
      if q < p {
        InOrderAt(pools, order, q, p);
      }
    }
  }

  lemma InOrderAt(pools: seq<LbPool>, order: seq<string>, p: nat, q: nat)
    requires InOrder(pools, order) && p < q < |pools| && Rank(order, PoolKey(pools[q])) < |order|
    ensures Rank(order, PoolKey(pools[p])) < Rank(order, PoolKey(pools[q]))
  {
    assert PoolKey(pools[q]) in order;
  }

  // One request at a time, on tables

  lemma RoutesStayValid(ids: set<string>, ids': set<string>, routes: seq<LbRouteRule>, defaultPoolId: string)
    requires ids <= ids'
    requires DefaultValid(ids, defaultPoolId) && forall route <- routes :: RouteValid(ids, route)
    ensures DefaultValid(ids', defaultPoolId) && forall route <- routes :: RouteValid(ids', route)
  {
  }

  lemma StoredIsValid(parse: UrlParser, pool: LbPool)
    requires PoolValid(parse, pool) && Trim(pool.id) == pool.id
    ensures PoolValid(parse, StoredPool(pool)) && PoolKey(StoredPool(pool)) == pool.id
  {
    hide Trim, NodesValid;
  }

  /** An update whose lookup is exact. */
  lemma UpdateStep(parse: UrlParser, lb: LoadBalancerConfig, i: nat, pool: LbPool)
    requires LbValid(parse, lb) && PoolValid(parse, pool) && Trim(pool.id) == pool.id
    requires i < |lb.pools| && PoolKey(lb.pools[i]) == pool.id
    ensures var lb' := lb.(pools := lb.pools[i := StoredPool(pool)]);
            && LbValid(parse, lb')
            && Table(lb'.pools, PoolKey) == Table(lb.pools, PoolKey)[pool.id := StoredPool(pool)]
  {
    StoredIsValid(parse, pool);
    hide Trim, Table, PoolIds, StoredPool, PoolsValid, PoolKey, RouteValid, DefaultValid, PoolValid;
    PoolsUpdated(parse, lb.pools, i, StoredPool(pool));
  }

  lemma UpdatedElements<T>(s: seq<T>, i: nat, x: T)
    requires i < |s|
    ensures forall y <- s[i := x] :: y == x || y in s
  {
  }

  lemma PoolsUpdated(parse: UrlParser, pools: seq<LbPool>, i: nat, pool: LbPool)
    requires PoolsValid(parse, pools) && PoolValid(parse, pool)
    requires i < |pools| && PoolKey(pools[i]) == PoolKey(pool)
    ensures PoolsValid(parse, pools[i := pool])
    ensures PoolIds(pools[i := pool]) == PoolIds(pools)
    ensures Table(pools[i := pool], PoolKey) == Table(pools, PoolKey)[PoolKey(pool) := pool]
  {
    var after := pools[i := pool];
    hide Trim, Table, PoolIds, PoolValid, PoolKey, Distinct;
    TableUpdated(pools, PoolKey, i, pool);
    UpdatedElements(pools, i, pool);
    TableHolds(pools, PoolKey);
    assert pools[i] in pools;
    PoolIdsAreKeys(parse, pools);
    PoolIdsAreKeys(parse, after);
  }

  /** An update whose lookup hits another pool makes an identifier occur twice, and is turned down. */
  lemma TwinUpdateRejected(parse: UrlParser, lb: LoadBalancerConfig, i: nat, pool: LbPool)
    requires i < |lb.pools| && PoolKey(lb.pools[i]) != pool.id && Trim(pool.id) == pool.id
    requires exists other <- lb.pools :: PoolKey(other) == pool.id
    ensures !Admissible(parse, Config(EMPTY_ROUTING, lb.(pools := lb.pools[i := StoredPool(pool)])))
  {
    var stored := StoredPool(pool);
    assert PoolKey(stored) == pool.id;
    hide Trim, StoredPool, PoolKey;
    var pools := lb.pools[i := stored];
    var q :| 0 <= q < |lb.pools| && PoolKey(lb.pools[q]) == pool.id;
    assert pools[i] == stored && pools[q] == lb.pools[q];
    assert !Distinct(pools, PoolKey) by {
      var a, b := if i < q then i else q, if i < q then q else i;
      assert PoolKey(pools[a]) == PoolKey(pools[b]);
    }
    AdmissibleIffValid(parse, Config(EMPTY_ROUTING, lb.(pools := pools)));
    hide Admissible, Distinct;
  }

  lemma CreateStep(parse: UrlParser, lb: LoadBalancerConfig, pool: LbPool, generatedId: string)
    requires LbValid(parse, lb)
    requires PoolValid(parse, pool) && pool.id !in Table(lb.pools, PoolKey) && Trim(pool.id) == pool.id
    ensures CreatedPool(pool, generatedId) == StoredPool(pool)
    ensures var lb' := lb.(pools := lb.pools + [StoredPool(pool)]);
            && LbValid(parse, lb')
            && Table(lb'.pools, PoolKey) == Table(lb.pools, PoolKey)[pool.id := StoredPool(pool)]
  {
    var stored := StoredPool(pool);
    assert CreatedPool(pool, generatedId) == stored;
    assert PoolValid(parse, stored) && PoolKey(stored) == pool.id;
    TableHolds(lb.pools, PoolKey);
    PoolIdsAreKeys(parse, lb.pools);
    hide Trim, Table, PoolIds, StoredPool, CreatedPool, NodesValid;
    TableSnoc(lb.pools, stored, PoolKey);
    DistinctSnoc(lb.pools, stored, PoolKey);
    var pools := lb.pools + [stored];
    PoolIdsAreKeys(parse, pools);
    RoutesStayValid(PoolIds(lb.pools), PoolIds(pools), lb.routes, lb.defaultPoolId);
  }

  lemma FindRouteExact(routes: seq<LbRouteRule>, domain: string)
    requires NormalizeDomain(domain) == domain
    ensures var i := FindRoute(routes, domain);
            && (i >= 0 <==> domain in Table(routes, DomainKey))
            && (i >= 0 ==> DomainKey(routes[i]) == domain)
  {
    TableHolds(routes, DomainKey);
    FirstIndexIsFirst(routes, ForDomain(domain));
    FoundIffPresent(routes, ForDomain(domain));
    hide NormalizeDomain, Table, FirstIndex;
    assert forall route <- routes :: ForDomain(domain)(route) <==> DomainKey(route) == domain;
    if domain in Table(routes, DomainKey) {
      assert ForDomain(domain)(Table(routes, DomainKey)[domain]);
    }
  }

  /** A draft route as the server stores it. */
  function StoredDraft(route: LbRouteRule): LbRouteRule {
    StoredRoute(NormalizeDomain(route.domain), route)
  }

  lemma StoredUnderDomain(route: LbRouteRule)
    ensures DomainKey(StoredDraft(route)) == DomainKey(route)
    ensures NormalizeDomain(DomainKey(route)) == DomainKey(route)
  {
    TrimmedLowerIdempotent(route.domain);
  }

  lemma RouteUpserted(routes: seq<LbRouteRule>, route: LbRouteRule)
    requires Distinct(routes, DomainKey)
    ensures var routes' := LbAdmin.WithRoute(routes, DomainKey(route), route);
            && Distinct(routes', DomainKey)
            && Table(routes', DomainKey) == Table(routes, DomainKey)[DomainKey(route) := StoredDraft(route)]
            && (forall r <- routes' :: r == StoredDraft(route) || r in routes)
  {
    StoredUnderDomain(route);
    var domain, stored := DomainKey(route), StoredDraft(route);
    assert stored == StoredRoute(domain, route);
    hide Trim, NormalizeDomain, StoredRoute;
    FindRouteExact(routes, domain);
    TableHolds(routes, DomainKey);
    hide FindRoute, Table, Distinct, DomainKey, StoredDraft;
    var i := FindRoute(routes, domain);
    if 0 <= i < |routes| {
      TableUpdated(routes, DomainKey, i, stored);
    } else {
      TableSnoc(routes, stored, DomainKey);
      DistinctSnoc(routes, stored, DomainKey);
    }
  }

  lemma UpsertStep(parse: UrlParser, lb: LoadBalancerConfig, route: LbRouteRule)
    requires LbValid(parse, lb) && Distinct(lb.routes, DomainKey) && RouteValid(PoolIds(lb.pools), StoredDraft(route))
    ensures var lb' := lb.(routes := LbAdmin.WithRoute(lb.routes, DomainKey(route), route));
            && LbValid(parse, lb') && Distinct(lb'.routes, DomainKey)
            && Table(lb'.routes, DomainKey) == Table(lb.routes, DomainKey)[DomainKey(route) := StoredDraft(route)]
  {
    hide Trim, NormalizeDomain, FindRoute, Table, PoolIds, PoolsValid, RouteValid, LbAdmin.WithRoute, Distinct, StoredDraft;
    RouteUpserted(lb.routes, route);
  }

  lemma DropRouteStep(parse: UrlParser, lb: LoadBalancerConfig, domain: string)
    requires LbValid(parse, lb) && Distinct(lb.routes, DomainKey)
    requires NormalizeDomain(domain) == domain && domain in Table(lb.routes, DomainKey)
    ensures var i := FindRoute(lb.routes, domain);
            && 0 <= i < |lb.routes|
            && var lb' := lb.(routes := Without(lb.routes, i));
               && LbValid(parse, lb') && Distinct(lb'.routes, DomainKey)
               && Table(lb'.routes, DomainKey) == Table(lb.routes, DomainKey) - {domain}
  {
    FindRouteExact(lb.routes, domain);
    hide Trim, NormalizeDomain, FindRoute, Table, PoolIds, PoolsValid, RouteValid, Without;
    var i := FindRoute(lb.routes, domain);
    TableRemoved(lb.routes, DomainKey, i);
    WithoutAt(lb.routes, i);
  }

  lemma {:induction false} FilterAll<T>(s: seq<T>, keep: T -> bool)
    requires forall x <- s :: keep(x)
    ensures Filter(s, keep) == s
  {
    if s != [] {
      FilterAll(s[..|s| - 1], keep);
      assert s == s[..|s| - 1] + [s[|s| - 1]];
    }
  }

  lemma PoolDropped(parse: UrlParser, pools: seq<LbPool>, i: nat)
    requires PoolsValid(parse, pools) && i < |pools|
    ensures PoolsValid(parse, Without(pools, i))
    ensures Table(Without(pools, i), PoolKey) == Table(pools, PoolKey) - {PoolKey(pools[i])}
    ensures PoolIds(Without(pools, i)) == PoolIds(pools) - {PoolKey(pools[i])}
  {
    PoolIdsAreKeys(parse, pools);
    hide Trim, Table, PoolIds, PoolValid, Without, PoolKey;
    TableRemoved(pools, PoolKey, i);
    WithoutAt(pools, i);
    PoolIdsAreKeys(parse, Without(pools, i));
  }

  lemma RouteKeepsValid(ids: set<string>, wanted: set<string>, id: string, route: LbRouteRule)
    requires id !in wanted && id != "" && RouteValid(ids, route) && RouteValid(wanted, route)
    ensures NotBoundTo(id)(route) && RouteValid(ids - {id}, route)
  {
    hide Trim;
  }

  lemma RoutesKeepValid(ids: set<string>, wanted: set<string>, id: string, routes: seq<LbRouteRule>)
    requires id !in wanted && id != ""
    requires forall route <- routes :: RouteValid(ids, route) && RouteValid(wanted, route)
    ensures Filter(routes, NotBoundTo(id)) == routes
    ensures forall route <- routes :: RouteValid(ids - {id}, route)
  {
    hide RouteValid, NotBoundTo;
    forall route | route in routes ensures NotBoundTo(id)(route) && RouteValid(ids - {id}, route) {
      RouteKeepsValid(ids, wanted, id, route);
    }
    FilterAll(routes, NotBoundTo(id));
  }

  /** Deleting a pool that no route names, through an exact lookup, leaves the routes alone and clears the
      default only when it spells that pool, in whatever case. */
  lemma DropPoolStep(parse: UrlParser, lb: LoadBalancerConfig, i: nat, id: string, wanted: set<string>)
    requires LbValid(parse, lb) && i < |lb.pools| && PoolKey(lb.pools[i]) == id && id !in wanted
    requires forall route <- lb.routes :: RouteValid(wanted, route)
    ensures var lb' := WithoutPool(lb, i, id);
            && LbValid(parse, lb') && lb'.routes == lb.routes
            && lb'.defaultPoolId == (if EqualFold(Trim(lb.defaultPoolId), id) then "" else lb.defaultPoolId)
            && Table(lb'.pools, PoolKey) == Table(lb.pools, PoolKey) - {id}
  {
    assert id != "" by { assert PoolValid(parse, lb.pools[i]); }
    TrimIdempotent(lb.pools[i].id);
    PoolDropped(parse, lb.pools, i);
    hide Trim, Table, PoolIds, PoolsValid, Without, RouteValid, ToLower;
    RoutesKeepValid(PoolIds(lb.pools), wanted, id, lb.routes);
  }
}
