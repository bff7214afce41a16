/** When a request to a valid server without legacy rules is turned down, and what then shows in the
    current configuration, whose slices the request has already written to. */
module Rejections {
  import opened ConfigTypes
  import opened LbAdmin
  import opened PlanSteps
  import opened Seqs
  import opened Text
  import opened Validation

  /** A payload with a node of no weight is turned down, and yet replaces the pool it addresses. */
  lemma WeightlessPoolShows(parse: UrlParser, lb: LoadBalancerConfig, i: nat, id: string, payload: LbPool, node: LbNode)
    requires LbValid(parse, lb) && i < |lb.pools|
    requires node in payload.nodes && node.weight <= 0
    ensures var shown := lb.(pools := lb.pools[i := UpdatedPool(id, payload)]);
            && !Admissible(parse, Config(EMPTY_ROUTING, shown))
            && !LbValid(parse, shown) && shown != lb
  {
    var stored := UpdatedPool(id, payload);
    assert !NodeValid(parse, node) && stored.nodes == payload.nodes;
    assert !PoolValid(parse, stored);
    var shown := lb.(pools := lb.pools[i := stored]);
    assert shown.pools[i] == stored;
    AdmissibleIffValid(parse, Config(EMPTY_ROUTING, shown));
    hide Admissible, UpdatedPool, PoolValid;
  }

  /** Deleting a pool is turned down exactly when some route names the pool that the lookup found but does not
      spell it as the request did. */
  lemma DeletionAcceptedIff(parse: UrlParser, lb: LoadBalancerConfig, i: nat, id: string)
    requires LbValid(parse, lb) && i < |lb.pools| && Trim(id) == id && EqualFold(PoolKey(lb.pools[i]), id)
    ensures Admissible(parse, Config(EMPTY_ROUTING, WithoutPool(lb, i, id)))
       <==> forall route <- lb.routes :: NotBoundTo(id)(route) ==> NotBoundTo(PoolKey(lb.pools[i]))(route)
  {
    var key, ids, wanted := PoolKey(lb.pools[i]), PoolIds(lb.pools), WithoutPool(lb, i, id);
    PoolDropped(parse, lb.pools, i);
    assert key != "" by { assert PoolValid(parse, lb.pools[i]); }
    assert DefaultValid(ids - {key}, wanted.defaultPoolId) by {
      hide Trim, PoolIds, PoolsValid, RouteValid;
    }
    forall route | route in lb.routes ensures RouteValid(ids - {key}, route) <==> NotBoundTo(key)(route) {
      assert RouteValid(ids, route);
      hide Trim, PoolIds;
    }
    hide Trim, PoolIds, PoolsValid, RouteValid, Admissible, NotBoundTo, DefaultValid, PoolKey, Without;
    forall route ensures route in wanted.routes <==> route in lb.routes && NotBoundTo(id)(route) {
      KeptIff(lb.routes, NotBoundTo(id), route);
    }
    assert wanted.pools == Without(lb.pools, i);
    hide WithoutPool, Filter;
    AdmissibleIffValid(parse, Config(EMPTY_ROUTING, wanted));
  }

  /** After a deletion that is turned down the current configuration is still valid, and still the same, only
      when the pool was the last. */
  lemma DeletionShowsUnlessLast(parse: UrlParser, lb: LoadBalancerConfig, i: nat)
    requires LbValid(parse, lb) && i < |lb.pools|
    ensures ShiftedOver(lb.pools, i) == lb.pools <==> i == |lb.pools| - 1
    ensures LbValid(parse, lb.(pools := ShiftedOver(lb.pools, i))) <==> i == |lb.pools| - 1
  {
    var s, last := lb.pools, |lb.pools| - 1;
    ShiftedIsDistinctIff(s, i);
    if i == last {
      ShiftedOverShows(s, i);
    }
    hide ShiftedOver, PoolValid, PoolIds, RouteValid, DefaultValid, Distinct;
  }

  lemma ShiftedIsDistinctIff(s: seq<LbPool>, i: nat)
    requires Distinct(s, PoolKey) && i < |s|
    ensures Distinct(ShiftedOver(s, i), PoolKey) <==> i == |s| - 1
    ensures ShiftedOver(s, i) == s <==> i == |s| - 1
  {
    var t, last := ShiftedOver(s, i), |s| - 1;
    hide PoolKey, ShiftedOver;
    ShiftedOverAt(s, i, last);
    if i < last {
      ShiftedOverAt(s, i, last - 1);
      assert PoolKey(t[last - 1]) == PoolKey(t[last]);
    } else {
      ShiftedOverShows(s, i);
    }
  }

  /** Both can happen: with two pools and a route, a deletion that spells the first pool in another case is
      turned down and leaves the second pool twice. */
  lemma OtherCaseIsTurnedDown(parse: UrlParser, first: LbPool, second: LbPool, route: LbRouteRule)
    requires first.id == "a" && second.id == "b" && first.nodes == second.nodes == []
    requires route.domain == "x" && route.poolId == "a" && route.fallbackPoolId == ""
    ensures var lb := LoadBalancerConfig("", [first, second], [route]);
            && LbValid(parse, lb) && FindPool(lb.pools, "A") == 0
            && !Admissible(parse, Config(EMPTY_ROUTING, WithoutPool(lb, 0, "A")))
            && ShiftedOver(lb.pools, 0) == [second, second]
  {
    Spellings();
    TwoPoolsAreValid(parse, first, second, route);
    var lb := LoadBalancerConfig("", [first, second], [route]);
    FoundIsFirst(lb.pools, "A");
    assert EqualFold(PoolKey(lb.pools[0]), "A");
    DeletionAcceptedIff(parse, lb, 0, "A");
    assert NotBoundTo("A")(route) && !NotBoundTo("a")(route) && route in lb.routes;
    hide *;
  }

  lemma Spellings()
    ensures Trim("a") == "a" && Trim("A") == "A" && Trim("b") == "b" && Trim("x") == "x" && Trim("") == ""
    ensures ToLower("A") == "a" && ToLower("a") == "a"
  {
  }

  lemma TwoPoolsAreValid(parse: UrlParser, first: LbPool, second: LbPool, route: LbRouteRule)
    requires Trim(first.id) == "a" && Trim(second.id) == "b" && first.nodes == second.nodes == []
    requires Trim(route.domain) == "x" && Trim(route.poolId) == "a" && Trim(route.fallbackPoolId) == ""
    ensures LbValid(parse, LoadBalancerConfig("", [first, second], [route]))
  {
    hide Trim;
    var pools := [first, second];
    assert first in pools;
    assert PoolsValid(parse, pools);
    assert "a" in PoolIds(pools);
  }

  /** A corollary of AdmissibleIffValid: deleting a route is never turned down. */
  lemma RouteDeletionAccepted(parse: UrlParser, lb: LoadBalancerConfig, i: nat)
    requires LbValid(parse, lb) && i < |lb.routes|
    ensures Admissible(parse, Config(EMPTY_ROUTING, lb.(routes := Without(lb.routes, i))))
  {
    var wanted := lb.(routes := Without(lb.routes, i));
    WithoutAt(lb.routes, i);
    AdmissibleIffValid(parse, Config(EMPTY_ROUTING, wanted));
    hide Admissible, PoolsValid, RouteValid, DefaultValid, PoolIds, Without;
  }
}
