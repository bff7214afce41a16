/** Concurrent picks from one pool: every pick first adds to the shared counter, then reads the ring, and the
    steps of different callers interleave freely. The counter wraps at 2^64. */
module ConcurrentPicks {
  import opened Arithmetic
  import opened Ring
  import opened RoundRobin

  // What the counter hands out

  /** How often the next k draws return the node. */
  function WrappedHits(ring: seq<nat>, start: nat, k: nat, node: nat): nat
    requires ring != []
  {
    if k == 0 then 0 else WrappedHits(ring, start, k - 1, node) + Hit(ring, Drawn(start, k), node)
  }

  datatype PickEvent = Add(caller: nat) | Read(caller: nat)

  datatype PickState = PickState(counter: nat, pending: map<nat, nat>, served: seq<nat>)

  predicate CanStep(s: PickState, e: PickEvent) {
    match e
    case Add(caller) => caller !in s.pending
    case Read(caller) => caller in s.pending
  }

  function PickStep(ring: seq<nat>, s: PickState, e: PickEvent): PickState
    requires ring != [] && CanStep(s, e)
  {
    match e
    case Add(caller) =>
      var next := Drawn(s.counter, 1);
      s.(counter := next, pending := s.pending[caller := next])
    case Read(caller) =>
      s.(pending := s.pending - {caller}, served := s.served + [Slot(ring, s.pending[caller])])
  }

  predicate IsRun(ring: seq<nat>, s: PickState, events: seq<PickEvent>)
    requires ring != []
    decreases |events|
  {
    events == [] || (CanStep(s, events[0]) && IsRun(ring, PickStep(ring, s, events[0]), events[1..]))
  }

  function RunPicks(ring: seq<nat>, s: PickState, events: seq<PickEvent>): PickState
    requires ring != [] && IsRun(ring, s, events)
    decreases |events|
  {
    if events == [] then s else RunPicks(ring, PickStep(ring, s, events[0]), events[1..])
  }

  function Adds(events: seq<PickEvent>): (n: nat)
    ensures n <= |events|
  {
    if events == [] then 0 else (if events[0].Add? then 1 else 0) + Adds(events[1..])
  }

  // Nothing handed out is lost or served twice

  function PendingFor(ring: seq<nat>, pending: map<nat, nat>, node: nat): set<nat>
    requires ring != []
  {
    set c | c in pending && Slot(ring, pending[c]) == node
  }

  /** Of the t values handed out since `start`, each is either still pending or has been served. */
  ghost predicate Accounted(ring: seq<nat>, start: nat, t: nat, s: PickState, node: nat)
    requires ring != []
  {
    && s.counter == Drawn(start, t)
    && Count(s.served, node) + |PendingFor(ring, s.pending, node)| == WrappedHits(ring, start, t, node)
  }

  lemma OnePending(ring: seq<nat>, pending: map<nat, nat>, caller: nat, value: nat, node: nat)
    requires ring != [] && caller !in pending
    ensures |PendingFor(ring, pending[caller := value], node)| == |PendingFor(ring, pending, node)| + Hit(ring, value, node)
  {
    var before, after := PendingFor(ring, pending, node), PendingFor(ring, pending[caller := value], node);
    hide Slot;
    assert caller !in before;
    assert after == if Slot(ring, value) == node then before + {caller} else before;
  }

  lemma AddKeepsAccount(ring: seq<nat>, start: nat, t: nat, s: PickState, caller: nat, node: nat)
    requires ring != [] && caller !in s.pending && Accounted(ring, start, t, s, node)
    ensures Accounted(ring, start, t + 1, PickStep(ring, s, Add(caller)), node)
  {
    DrawnNext(start, t);
    OnePending(ring, s.pending, caller, Drawn(start, t + 1), node);
    hide Slot, PendingFor, Drawn, Count;
  }

  lemma ReadKeepsAccount(ring: seq<nat>, start: nat, t: nat, s: PickState, caller: nat, node: nat)
    requires ring != [] && caller in s.pending && Accounted(ring, start, t, s, node)
    ensures Accounted(ring, start, t, PickStep(ring, s, Read(caller)), node)
  {
    var value, rest := s.pending[caller], s.pending - {caller};
    OnePending(ring, rest, caller, value, node);
    assert rest[caller := value] == s.pending;
    ServedOneMore(s.served, Slot(ring, value), node);
    hide Slot, PendingFor, Drawn, Count, WrappedHits;
  }

  lemma ServedOneMore(served: seq<nat>, slot: nat, node: nat)
    ensures Count(served + [slot], node) == Count(served, node) + if slot == node then 1 else 0
  {
    CountAppend(served, [slot], node);
    assert [slot][..0] == [];
  }

  lemma {:induction false} RunKeepsAccount(ring: seq<nat>, start: nat, t: nat, s: PickState, events: seq<PickEvent>, node: nat)
    requires ring != [] && IsRun(ring, s, events) && Accounted(ring, start, t, s, node)
    ensures Accounted(ring, start, t + Adds(events), RunPicks(ring, s, events), node)
    decreases |events|
  {
    hide Accounted, PickStep;
    if events != [] {
      var moved := if events[0].Add? then 1 else 0;
      match events[0] {
        case Add(caller) => AddKeepsAccount(ring, start, t, s, caller, node);
        case Read(caller) => ReadKeepsAccount(ring, start, t, s, caller, node);
      }
      RunKeepsAccount(ring, start, t + moved, PickStep(ring, s, events[0]), events[1..], node);
    }
  }

  /** So once all picks have returned, each node has been returned as often as the values drawn name it. */
  lemma AllServed(ring: seq<nat>, start: nat, events: seq<PickEvent>, node: nat)
    requires ring != [] && start < COUNTER_MODULUS && IsRun(ring, PickState(start, map[], []), events)
    requires RunPicks(ring, PickState(start, map[], []), events).pending == map[]
    ensures Count(RunPicks(ring, PickState(start, map[], []), events).served, node)
         == WrappedHits(ring, start, Adds(events), node)
  {
    var s := PickState(start, map[], []);
    assert PendingFor(ring, map[], node) == {};
    DrawnNext(start, 0);
    assert Accounted(ring, start, 0, s, node);
    RunKeepsAccount(ring, start, 0, s, events, node);
    hide Drawn, WrappedHits, IsRun, RunPicks, Count, Slot;
  }

  // Draws across the wrap

  lemma {:induction false} SlotPeriods(ring: seq<nat>, drawn: nat, turns: nat)
    requires ring != []
    ensures Slot(ring, drawn + turns * |ring|) == Slot(ring, drawn)
  {
    if turns > 0 {
      SlotPeriods(ring, drawn, turns - 1);
      TimesSuccessor(turns - 1, |ring|);
      SlotPeriodic(ring, drawn + (turns - 1) * |ring|);
      hide Slot;
    }
  }

  /** The ring's length divides 2^64. */
  predicate TurnsEvenly(ring: seq<nat>)
    requires ring != []
  {
    COUNTER_MODULUS % |ring| == 0
  }

  lemma {:induction false} WrapKeepsSlot(ring: seq<nat>, drawn: nat)
    requires ring != [] && TurnsEvenly(ring)
    ensures Slot(ring, drawn % COUNTER_MODULUS) == Slot(ring, drawn)
    decreases drawn
  {
    if drawn >= COUNTER_MODULUS {
      var turns, rest := Division(COUNTER_MODULUS, |ring|);
      WrapKeepsSlot(ring, drawn - COUNTER_MODULUS);
      SlotPeriods(ring, drawn - COUNTER_MODULUS, turns);
      ModShift(drawn - COUNTER_MODULUS, COUNTER_MODULUS);
      hide Slot;
    }
  }

  lemma DrawnSlot(ring: seq<nat>, start: nat, k: nat)
    requires ring != [] && (start + k < COUNTER_MODULUS || TurnsEvenly(ring))
    ensures Slot(ring, Drawn(start, k)) == Slot(ring, start + k)
  {
    if start + k < COUNTER_MODULUS {
      DrawnNext(start, k);
      hide *;
    } else {
      WrapKeepsSlot(ring, start + k);
      hide Slot, TurnsEvenly;
    }
  }

  /** Draws that do not cross the wrap, or cross it on a ring that turns evenly, are consecutive draws. */
  lemma {:induction false} WrappedAreConsecutive(ring: seq<nat>, start: nat, k: nat, node: nat)
    requires ring != [] && (start + k < COUNTER_MODULUS || TurnsEvenly(ring))
    ensures WrappedHits(ring, start, k, node) == Hits(ring, start + 1, k, node)
  {
    hide Slot, Drawn, TurnsEvenly;
    if k > 0 {
      WrappedAreConsecutive(ring, start, k - 1, node);
      DrawnSlot(ring, start, k);
      assert start + 1 + k - 1 == start + k;
    }
  }

  /** However the steps of k concurrent picks interleave, once all have returned each node has been returned
      within the bounds of k consecutive draws. */
  lemma ConcurrentPicksAreFair(weights: seq<nat>, start: nat, events: seq<PickEvent>, node: nat)
    requires node < |weights| && Blocks(weights) != [] && start < COUNTER_MODULUS
    requires start + Adds(events) < COUNTER_MODULUS || TurnsEvenly(Blocks(weights))
    requires IsRun(Blocks(weights), PickState(start, map[], []), events)
    requires RunPicks(Blocks(weights), PickState(start, map[], []), events).pending == map[]
    ensures Sum(weights) > 0
    ensures var served := RunPicks(Blocks(weights), PickState(start, map[], []), events).served;
            FairShare(weights, Adds(events), node, Count(served, node))
  {
    hide *;
    AllServed(Blocks(weights), start, events, node);
    WrappedAreConsecutive(Blocks(weights), start, Adds(events), node);
    ConsecutiveDrawsAreFair(weights, start + 1, Adds(events), node);
  }

  // Exactly which rings stay fair across it

  /** One turn's worth of draws from there gives every node its weight. */
  ghost predicate TurnIsFair(weights: seq<nat>, start: nat)
    requires Blocks(weights) != []
  {
    forall node: nat :: node < |weights| ==> WrappedHits(Blocks(weights), start, Sum(weights), node) == weights[node]
  }

  lemma {:induction false} HitsShift(ring: seq<nat>, start: nat, k: nat, node: nat)
    requires ring != [] && start + 1 < COUNTER_MODULUS
    ensures WrappedHits(ring, start, k + 1, node) == Hit(ring, start + 1, node) + WrappedHits(ring, start + 1, k, node)
  {
    if k == 0 {
      DrawnNext(start, 1);
      hide Drawn;
      assert WrappedHits(ring, start, 1, node) == WrappedHits(ring, start, 0, node) + Hit(ring, Drawn(start, 1), node);
    } else {
      HitsShift(ring, start, k - 1, node);
      assert Drawn(start, k + 1) == Drawn(start + 1, k);
    }
    hide Hit;
  }

  /** When two turns that start one apart are both fair, what the first takes in is what the second does. */
  lemma NeighboursAgree(weights: seq<nat>, start: nat)
    requires Blocks(weights) != [] && start + 1 < COUNTER_MODULUS && |Blocks(weights)| == Sum(weights)
    requires TurnIsFair(weights, start) && TurnIsFair(weights, start + 1)
    ensures Slot(Blocks(weights), start + 1) == Slot(Blocks(weights), Drawn(start + 1, Sum(weights)))
  {
    var ring, W := Blocks(weights), Sum(weights);
    hide Slot, WrappedHits, Blocks, Sum, Drawn;
    var node := Slot(ring, start + 1);
    var i :| 0 <= i < |ring| && ring[i] == node;
    assert WrappedHits(ring, start, W, node) == WrappedHits(ring, start + 1, W, node);
    hide TurnIsFair;
    HitsShift(ring, start, W - 1, node);
    LastHit(ring, start + 1, W, node);
  }

  lemma LastHit(ring: seq<nat>, start: nat, k: nat, node: nat)
    requires ring != [] && k > 0
    ensures WrappedHits(ring, start, k, node) == WrappedHits(ring, start, k - 1, node) + Hit(ring, Drawn(start, k), node)
  {
    hide Hit;
  }

  lemma {:induction false} BlocksAscend(weights: seq<nat>, i: nat, j: nat)
    requires i <= j < |Blocks(weights)|
    ensures Blocks(weights)[i] <= Blocks(weights)[j]
  {
    var k := |weights| - 1;
    var front := Blocks(weights[..k]);
    if j < |front| {
      BlocksAscend(weights[..k], i, j);
    }
  }

  /** The first slot is the first node's and the last is the last's. */
  lemma {:induction false} BlocksEnds(weights: seq<nat>)
    requires weights != [] && forall w <- weights :: w > 0
    ensures |Blocks(weights)| > 0 && Blocks(weights)[0] == 0 && Blocks(weights)[|Blocks(weights)| - 1] == |weights| - 1
  {
    var k := |weights| - 1;
    assert weights[k] in weights;
    if k > 0 {
      assert forall w <- weights[..k] :: w in weights;
      BlocksEnds(weights[..k]);
    }
  }

  lemma UnevenTurnIsUnfair(weights: seq<nat>)
    requires |weights| >= 2 && (forall w <- weights :: w > 0) && Sum(weights) < COUNTER_MODULUS
    requires Blocks(weights) != [] && !TurnsEvenly(Blocks(weights))
    ensures exists start: nat :: start < COUNTER_MODULUS && !TurnIsFair(weights, start)
  {
    var ring := Blocks(weights);
    hide *;
    RingHoldsWeights(weights);
    BlocksEnds(weights);
    TwoNodesTwoSlots(weights);
    var turns, r := UnevenRest(ring);
    TurnStarts(ring, turns, r);
    BlocksAscend(weights, |ring| - r - 1, |ring| - r);
    WrapTellsApart(weights, r);
  }

  lemma UnevenRest(ring: seq<nat>) returns (turns: nat, r: nat)
    requires ring != [] && !TurnsEvenly(ring)
    ensures 0 < r < |ring| && COUNTER_MODULUS == turns * |ring| + r
  {
    turns, r := Division(COUNTER_MODULUS, |ring|);
  }

  lemma TwoNodesTwoSlots(weights: seq<nat>)
    requires |weights| >= 2 && (forall w <- weights :: w > 0)
    ensures |Blocks(weights)| > 1
  {
    BlocksEnds(weights);
    hide Blocks;
  }

  /** Neighbouring turns around the wrap cannot all be fair. */
  lemma WrapTellsApart(weights: seq<nat>, r: nat)
    requires Blocks(weights) != [] && |Blocks(weights)| == Sum(weights) && 0 < r < Sum(weights) && r + 2 <= COUNTER_MODULUS
    requires var ring, s := Blocks(weights), COUNTER_MODULUS - r;
             && Slot(ring, s) < Slot(ring, s - 1)
             && Slot(ring, Drawn(s - 1, |ring|)) <= Slot(ring, Drawn(s, |ring|))
    ensures exists start: nat :: start < COUNTER_MODULUS && !TurnIsFair(weights, start)
  {
    hide Blocks, Sum, TurnIsFair, Slot, WrappedHits, Drawn;
    var s := COUNTER_MODULUS - r;
    if TurnIsFair(weights, s - 2) && TurnIsFair(weights, s - 1) && TurnIsFair(weights, s) {
      NeighboursAgree(weights, s - 1);
      NeighboursAgree(weights, s - 2);
    }
  }

  /** Around the wrap: r places before it a turn begins, and one turn later the counter reads W - r. */
  lemma TurnStarts(ring: seq<nat>, turns: nat, r: nat)
    requires 1 < |ring| < COUNTER_MODULUS && 0 < r < |ring| && COUNTER_MODULUS == turns * |ring| + r
    ensures COUNTER_MODULUS - r >= 2
    ensures Slot(ring, COUNTER_MODULUS - r) == ring[0] && Slot(ring, COUNTER_MODULUS - r - 1) == ring[|ring| - 1]
    ensures Drawn(COUNTER_MODULUS - r, |ring|) == |ring| - r && Drawn(COUNTER_MODULUS - r - 1, |ring|) == |ring| - r - 1
    ensures Slot(ring, |ring| - r) == ring[|ring| - r] && Slot(ring, |ring| - r - 1) == ring[|ring| - r - 1]
  {
    var W := |ring|;
    PositiveFactor(turns, W);
    SlotPeriods(ring, 0, turns);
    SlotPeriods(ring, W - 1, turns - 1);
    TimesSuccessor(turns - 1, W);
  }

  lemma PositiveFactor(a: nat, b: nat)
    requires a * b > 0
    ensures a > 0
  {
  }

  lemma {:induction false} OneNodeTakesAll(weights: seq<nat>, start: nat, k: nat)
    requires |weights| == 1 && Blocks(weights) != []
    ensures WrappedHits(Blocks(weights), start, k, 0) == k
  {
    if k > 0 {
      OneNodeTakesAll(weights, start, k - 1);
      hide Slot, Drawn;
    }
  }

  /** Turns stay fair wherever they start, across the wrap too, exactly when the total weight divides 2^64 or
      there is but one node. */
  lemma WrapIsFairIff(weights: seq<nat>)
    requires weights != [] && (forall w <- weights :: w > 0) && Sum(weights) < COUNTER_MODULUS
    ensures Blocks(weights) != [] && |Blocks(weights)| == Sum(weights)
    ensures (forall start: nat :: start < COUNTER_MODULUS ==> TurnIsFair(weights, start))
       <==> TurnsEvenly(Blocks(weights)) || |weights| == 1
  {
    BlocksEnds(weights);
    RingHoldsWeights(weights);
    if TurnsEvenly(Blocks(weights)) {
      forall start: nat | start < COUNTER_MODULUS ensures TurnIsFair(weights, start) {
        EvenTurnIsFair(weights, start);
      }
    } else if |weights| == 1 {
      forall start: nat | start < COUNTER_MODULUS ensures TurnIsFair(weights, start) {
        OneNodeTakesAll(weights, start, Sum(weights));
        assert weights == [weights[0]] && weights[..0] == [];
      }
    } else {
      UnevenTurnIsUnfair(weights);
    }
  }

  lemma EvenTurnIsFair(weights: seq<nat>, start: nat)
    requires Blocks(weights) != [] && TurnsEvenly(Blocks(weights))
    ensures TurnIsFair(weights, start)
  {
    var ring := Blocks(weights);
    RingHoldsWeights(weights);
    forall node: nat | node < |weights| ensures WrappedHits(ring, start, Sum(weights), node) == weights[node] {
      WrappedAreConsecutive(ring, start, Sum(weights), node);
      FullTurn(ring, start + 1, node);
      hide *;
    }
  }
}
