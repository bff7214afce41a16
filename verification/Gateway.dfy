/** How the gateway draws routes: every request resolves its host twice, once to see whether the host is
    served at all and once to choose the upstream. */
module Gateway {
  import opened Wrappers
  import opened ConfigTypes
  import opened Ring
  import opened Routing
  import opened Snapshot
  import opened Text
  import RoundRobin

  predicate Advanced(before: map<string, nat>, after: map<string, nat>, id: string, draws: nat) {
    id in before && after == before[id := Drawn(before[id], draws)]
  }

  /** What answering `a` with this many draws returns and leaves in the counters. */
  predicate Drew(s: Snapshot, before: map<string, nat>, after: map<string, nat>, a: Answer, draws: nat, m: Option<RouteMatch>) {
    match a
    case FromPool(domain, forceHttps, id) =>
      && Advanced(before, after, id, draws)
      && m.Some? && m.value.domain == domain && m.value.forceHttps == forceHttps && s.SentTo(id, after[id], m.value.target)
    case Fixed(route) => m == Some(route) && after == before
    case NoAnswer => m == None && after == before
  }

  /** What a draw, or none, leaves in the counters. */
  predicate Looked(before: map<string, nat>, after: map<string, nat>, a: Answer) {
    if a.FromPool? then Advanced(before, after, a.poolId, 1) else after == before
  }

  /** Whether the host is served; finding out costs a draw. */
  method IsHostAuthorized(parse: UrlParser, s: Snapshot, host: string) returns (authorized: bool)
    requires s.Reflects(parse) && PoolsValid(s.lbPools)
    modifies s.lbPools.Values
    ensures PoolsValid(s.lbPools)
    ensures var a := DirectAnswer(parse, s.cfg, NormalizeHost(host));
            (authorized <==> a != NoAnswer) && Looked(old(s.Counters()), s.Counters(), a)
  {
    assert Builds(parse, s.cfg);
    hide NormalizeHost, DirectAnswer, Snapshot.Reflects, Builds, PoolsValid, Drawn, Snapshot.Counters, Snapshot.SentTo;
    var m := s.ResolveRoute(parse, host);
    authorized := m.Some?;
  }

  /** A draw after a draw. */
  lemma DrewAgain(s: Snapshot, start: map<string, nat>, mid: map<string, nat>, end: map<string, nat>, a: Answer, m: Option<RouteMatch>)
    requires Looked(start, mid, a) && s.AnsweredBy(mid, end, a, m)
    ensures Drew(s, start, end, a, 2, m)
  {
    hide Snapshot.SentTo, Drawn;
    if a.FromPool? {
      DrawnNext(start[a.poolId], 1);
    }
  }

  /** One request: `allowed` is the verdict on its source address. A request that is let through is
      sent to the second draw; one that is refused still costs the first. */
  method RouteRequest(parse: UrlParser, s: Snapshot, host: string, allowed: bool) returns (m: Option<RouteMatch>)
    requires s.Reflects(parse) && PoolsValid(s.lbPools)
    modifies s.lbPools.Values
    ensures PoolsValid(s.lbPools)
    ensures var a := DirectAnswer(parse, s.cfg, NormalizeHost(host));
            if allowed then Drew(s, old(s.Counters()), s.Counters(), a, 2, m)
            else m == None && Looked(old(s.Counters()), s.Counters(), a)
  {
    assert Builds(parse, s.cfg);
    hide NormalizeHost, DirectAnswer, Snapshot.Reflects, Builds, PoolsValid, Drawn, Snapshot.Counters, Snapshot.AnsweredBy, Advanced;
    ghost var start := s.Counters();
    var authorized := IsHostAuthorized(parse, s, host);
    ghost var mid := s.Counters();
    if !allowed || !authorized {
      return None;
    }
    m := s.ResolveRoute(parse, host);
    DrewAgain(s, start, mid, s.Counters(), DirectAnswer(parse, s.cfg, NormalizeHost(host)), m);
  }

  /** The weights of the pool that id names. */
  function PoolWeights(cfg: Config, id: string): seq<nat>
    requires LastPool(cfg.loadBalancer.pools, id) >= 0
  {
    Weights(Enabled(cfg.loadBalancer.pools[LastPool(cfg.loadBalancer.pools, id)].nodes))
  }

  lemma RingFollowsWeights(parse: UrlParser, s: Snapshot, id: string)
    requires s.Reflects(parse) && id in s.lbPools
    ensures LastPool(s.cfg.loadBalancer.pools, id) >= 0
    ensures s.lbPools[id].table.ring == Blocks(PoolWeights(s.cfg, id))
  {
    assert PoolReflects(parse, s.cfg.loadBalancer.pools, s.lbPools, id);
  }

  /** Requests for one host, one after the other, with no counter wrap. Their upstreams are every other
      slot of the ring, so as many requests as the pool's total weight are shared out by weight if and only if
      that weight is odd or every single weight is even. `slots` are the node indices behind the answers. */
  method ServeSerially(parse: UrlParser, s: Snapshot, host: string, requests: nat, ghost id: string)
    returns (answers: seq<RouteMatch>, ghost slots: seq<nat>)
    requires s.Reflects(parse) && PoolsValid(s.lbPools) && id in s.lbPools
    requires var a := DirectAnswer(parse, s.cfg, NormalizeHost(host)); a.FromPool? && a.poolId == id
    requires s.lbPools[id].counter + 2 * requests < COUNTER_MODULUS
    modifies s.lbPools.Values
    ensures |answers| == |slots| == requests
    ensures forall i :: 0 <= i < requests ==> Behind(s, id, answers[i], slots[i])
    ensures s.lbPools[id].counter == old(s.lbPools[id].counter) + 2 * requests
    ensures requests > 0 ==> s.lbPools[id].table.ring != []
    ensures requests > 0 ==> forall node: nat ::
              Count(slots, node) == RoundRobin.StrideHits(s.lbPools[id].table.ring, old(s.lbPools[id].counter) + 2, requests, node)
    ensures LastPool(s.cfg.loadBalancer.pools, id) >= 0
    ensures var weights := PoolWeights(s.cfg, id);
            requests == Sum(weights) ==>
              (SharedOut(weights, slots) <==> RoundRobin.StridesEvenly(weights))
  {
    hide NormalizeHost, DirectAnswer, Snapshot.Reflects, Builds, PoolsValid, RoundRobin.Slot, RoundRobin.StrideHits, Count, PoolWeights, SharedOut, CompiledPool.Valid;
    answers, slots := [], [];
    ghost var ring, start := s.lbPools[id].table.ring, s.lbPools[id].counter;
    CountOfNothing(ring, start + 2);
    for n := 0 to requests
      invariant PoolsValid(s.lbPools) && |answers| == |slots| == n
      invariant forall i :: 0 <= i < n ==> Behind(s, id, answers[i], slots[i])
      invariant s.lbPools[id].counter == start + 2 * n
      invariant n > 0 ==> ring != []
      invariant ring != [] ==> forall node: nat :: Count(slots, node) == RoundRobin.StrideHits(ring, start + 2, n, node)
    {
      var m := ServeOne(parse, s, host, id);
      NextStride(ring, start + 2, n);
      ghost var slot := RoundRobin.Slot(ring, s.lbPools[id].counter);
      CountSnoc(slots, slot);
      answers, slots := answers + [m], slots + [slot];
    }
    RingFollowsWeights(parse, s, id);
    SharesDecided(PoolWeights(s.cfg, id), start + 2, slots);
  }

  /** The answer is the node in that slot. */
  predicate Behind(s: Snapshot, id: string, answer: RouteMatch, slot: nat)
    requires id in s.lbPools
  {
    slot < |s.lbPools[id].table.nodes| && answer.target == s.lbPools[id].table.nodes[slot].target
  }

  method ServeOne(parse: UrlParser, s: Snapshot, host: string, ghost id: string) returns (m: RouteMatch)
    requires s.Reflects(parse) && PoolsValid(s.lbPools) && id in s.lbPools
    requires var a := DirectAnswer(parse, s.cfg, NormalizeHost(host)); a.FromPool? && a.poolId == id
    requires s.lbPools[id].counter + 2 < COUNTER_MODULUS
    modifies s.lbPools.Values
    ensures PoolsValid(s.lbPools)
    ensures s.lbPools[id].counter == old(s.lbPools[id].counter) + 2
    ensures s.lbPools[id].table.ring != []
    ensures Behind(s, id, m, RoundRobin.Slot(s.lbPools[id].table.ring, s.lbPools[id].counter))
  {
    hide NormalizeHost, DirectAnswer, Snapshot.Reflects, Builds, PoolsValid, RoundRobin.Slot;
    DrawnNext(s.lbPools[id].counter, 2);
    hide Drawn;
    var answer := RouteRequest(parse, s, host, true);
    m := answer.value;
  }

  /** Every node has served as many requests as its weight says. */
  predicate SharedOut(weights: seq<nat>, slots: seq<nat>) {
    forall node: nat :: node < |weights| ==> Count(slots, node) == weights[node]
  }

  lemma NextStride(ring: seq<nat>, first: nat, n: nat)
    requires ring != []
    ensures forall node: nat :: RoundRobin.StrideHits(ring, first, n + 1, node)
                             == RoundRobin.StrideHits(ring, first, n, node) + (if RoundRobin.Slot(ring, first + 2 * n) == node then 1 else 0)
  {
    hide RoundRobin.Slot;
  }

  lemma CountOfNothing(ring: seq<nat>, first: nat)
    ensures ring != [] ==> forall node: nat :: Count([], node) == RoundRobin.StrideHits(ring, first, 0, node)
  {
  }

  /** As many requests as the total weight are shared out by weight exactly when strides are even. */
  lemma SharesDecided(weights: seq<nat>, first: nat, slots: seq<nat>)
    requires Blocks(weights) == [] ==> slots == []
    requires Blocks(weights) != [] ==>
               forall node: nat :: Count(slots, node) == RoundRobin.StrideHits(Blocks(weights), first, |slots|, node)
    ensures |slots| == Sum(weights) ==> (SharedOut(weights, slots) <==> RoundRobin.StridesEvenly(weights))
  {
    if Blocks(weights) == [] {
      NoShares(weights);
      hide *;
    } else if |slots| == Sum(weights) {
      RoundRobin.RequestsAreFairIff(weights, first);
      hide Blocks, Count, RoundRobin.StrideHits, RoundRobin.StridesEvenly, Sum;
      assert forall node: nat :: node < |weights| ==>
        (RoundRobin.FairTo(weights, first, node) <==> Count(slots, node) == weights[node]);
    }
  }

  lemma NoShares(weights: seq<nat>)
    requires Blocks(weights) == []
    ensures SharedOut(weights, []) && RoundRobin.StridesEvenly(weights)
  {
    RingHoldsWeights(weights);
    forall node: nat | node < |weights| ensures weights[node] == 0 {
      assert Count(Blocks(weights), node) == weights[node];
    }
  }

  lemma CountSnoc(slots: seq<nat>, slot: nat)
    ensures forall node: nat :: Count(slots + [slot], node) == Count(slots, node) + if slot == node then 1 else 0
  {
    assert (slots + [slot])[..|slots|] == slots;
  }
}
