/** Fairness of the weighted round robin: what a run of draws from one pool's counter returns. */
module RoundRobin {
  import opened Arithmetic
  import opened Ring

  function Slot(ring: seq<nat>, drawn: nat): (index: nat)
    requires ring != []
    ensures index in ring
  {
    ring[Residue(drawn, |ring|)]
  }

  function Hit(ring: seq<nat>, drawn: nat, node: nat): (h: nat)
    requires ring != []
  {
    if Slot(ring, drawn) == node then 1 else 0
  }

  /** How often `draws` draws with counter values first, first + 1, ... return the node. */
  function Hits(ring: seq<nat>, first: nat, draws: nat, node: nat): nat
    requires ring != []
  {
    if draws == 0 then 0 else Hits(ring, first, draws - 1, node) + Hit(ring, first + draws - 1, node)
  }

  lemma {:induction false} HitsSplit(ring: seq<nat>, first: nat, a: nat, b: nat, node: nat)
    requires ring != []
    ensures Hits(ring, first, a + b, node) == Hits(ring, first, a, node) + Hits(ring, first + a, b, node)
  {
    if b > 0 {
      HitsSplit(ring, first, a, b - 1, node);
      assert first + (a + b) - 1 == first + a + b - 1;
    }
  }

  lemma SlotPeriodic(ring: seq<nat>, drawn: nat)
    requires ring != []
    ensures Slot(ring, drawn + |ring|) == Slot(ring, drawn)
  {
  }

  lemma {:induction false} HitsOfPrefix(ring: seq<nat>, k: nat, node: nat)
    requires ring != [] && k <= |ring|
    ensures Hits(ring, 0, k, node) == Count(ring[..k], node)
  {
    if k > 0 {
      HitsOfPrefix(ring, k - 1, node);
      assert ring[..k][..k - 1] == ring[..k - 1];
    }
  }

  /** A full turn of the ring hits each node once per slot it owns, wherever the counter stands. */
  lemma {:induction false} FullTurn(ring: seq<nat>, first: nat, node: nat)
    requires ring != []
    ensures Hits(ring, first, |ring|, node) == Count(ring, node)
  {
    if first == 0 {
      HitsOfPrefix(ring, |ring|, node);
      assert ring[..|ring|] == ring;
    } else {
      FullTurn(ring, first - 1, node);
      HitsSplit(ring, first - 1, 1, |ring| - 1, node);
      HitsSplit(ring, first, |ring| - 1, 1, node);
      SlotPeriodic(ring, first - 1);
      assert Hits(ring, first - 1, 1, node) == Hit(ring, first - 1, node) + Hits(ring, first - 1, 0, node);
      assert Hits(ring, first + |ring| - 1, 1, node)
          == Hit(ring, first + |ring| - 1, node) + Hits(ring, first + |ring| - 1, 0, node);
    }
  }

  lemma {:induction false} FullTurns(ring: seq<nat>, first: nat, turns: nat, node: nat)
    requires ring != []
    ensures Hits(ring, first, turns * |ring|, node) == turns * Count(ring, node)
  {
    if turns == 0 {
      NoDrawsNoHits(ring, first, node);
    } else {
      hide Hits, Count;
      FullTurns(ring, first, turns - 1, node);
      var before := (turns - 1) * |ring|;
      TimesSuccessor(turns - 1, |ring|);
      TimesSuccessor(turns - 1, Count(ring, node));
      assert turns * |ring| == before + |ring|;
      OneTurnMore(ring, first, before, node);
    }
  }

  lemma OneTurnMore(ring: seq<nat>, first: nat, before: nat, node: nat)
    requires ring != []
    ensures Hits(ring, first, before + |ring|, node) == Hits(ring, first, before, node) + Count(ring, node)
  {
    hide Hits, Count;
    HitsSplit(ring, first, before, |ring|, node);
    FullTurn(ring, first + before, node);
  }

  lemma PartialTurn(ring: seq<nat>, first: nat, rest: nat, node: nat)
    requires ring != [] && rest <= |ring|
    ensures Hits(ring, first, rest, node) <= Count(ring, node)
  {
    HitsSplit(ring, first, rest, |ring| - rest, node);
    FullTurn(ring, first, node);
  }

  lemma TurnsAndRest(ring: seq<nat>, first: nat, q: nat, rest: nat, node: nat)
    requires ring != [] && rest < |ring|
    ensures var hits := Hits(ring, first, q * |ring| + rest, node);
            q * Count(ring, node) <= hits <= (if rest == 0 then q else q + 1) * Count(ring, node)
  {
    hide Hits, Count;
    var turns, c := q * |ring|, Count(ring, node);
    FullTurns(ring, first, q, node);
    HitsSplit(ring, first, turns, rest, node);
    PartialTurn(ring, first + turns, rest, node);
    NoDrawsNoHits(ring, first + turns, node);
    TimesSuccessor(q, c);
  }

  lemma NoDrawsNoHits(ring: seq<nat>, first: nat, node: nat)
    requires ring != []
    ensures Hits(ring, first, 0, node) == 0
  {
  }

  lemma DrawsByDivision(ring: seq<nat>, first: nat, k: nat, node: nat)
    requires ring != []
    ensures k / |ring| * Count(ring, node) <= Hits(ring, first, k, node) <= CeilDiv(k, |ring|) * Count(ring, node)
  {
    var q, rest := Division(k, |ring|);
    TurnsAndRest(ring, first, q, rest, node);
  }

  /** k consecutive draws give a node of weight w at least floor(k/W)*w and at most ceil(k/W)*w hits. */
  ghost predicate FairShare(weights: seq<nat>, k: nat, node: nat, hits: nat)
    requires node < |weights| && Sum(weights) > 0
  {
    var W := Sum(weights);
    && k / W * weights[node] <= hits <= CeilDiv(k, W) * weights[node]
    && (k == W ==> hits == weights[node])
  }

  lemma ConsecutiveDrawsAreFair(weights: seq<nat>, first: nat, k: nat, node: nat)
    requires node < |weights| && Blocks(weights) != []
    ensures |Blocks(weights)| == Sum(weights) > 0
    ensures FairShare(weights, k, node, Hits(Blocks(weights), first, k, node))
  {
    RingHoldsWeights(weights);
    DrawsByDivision(Blocks(weights), first, k, node);
    FullTurn(Blocks(weights), first, node);
  }

  // The gateway resolves the route twice per request and proxies to the second answer, so requests
  // served one after the other sample every other counter value.

  function StrideHits(ring: seq<nat>, first: nat, requests: nat, node: nat): nat
    requires ring != []
  {
    if requests == 0 then 0
    else StrideHits(ring, first, requests - 1, node) + Hit(ring, first + 2 * (requests - 1), node)
  }

  lemma {:induction false} StrideSplit(ring: seq<nat>, first: nat, a: nat, b: nat, node: nat)
    requires ring != []
    ensures StrideHits(ring, first, a + b, node)
         == StrideHits(ring, first, a, node) + StrideHits(ring, first + 2 * a, b, node)
  {
    if b > 0 {
      StrideSplit(ring, first, a, b - 1, node);
      assert first + 2 * (a + b - 1) == first + 2 * a + 2 * (b - 1);
    }
  }

  lemma {:induction false} StridePeriodic(ring: seq<nat>, first: nat, m: nat, node: nat)
    requires ring != []
    ensures StrideHits(ring, first + |ring|, m, node) == StrideHits(ring, first, m, node)
  {
    if m > 0 {
      StridePeriodic(ring, first, m - 1, node);
      SlotPeriodic(ring, first + 2 * (m - 1));
    }
  }

  /** Two interleaved strides make up the run of consecutive draws. */
  lemma {:induction false} StridesInterleave(ring: seq<nat>, first: nat, h: nat, node: nat)
    requires ring != []
    ensures Hits(ring, first, 2 * h, node)
         == StrideHits(ring, first, h, node) + StrideHits(ring, first + 1, h, node)
  {
    if h > 0 {
      StridesInterleave(ring, first, h - 1, node);
      assert Hits(ring, first, 2 * h, node)
          == Hits(ring, first, 2 * h - 1, node) + Hit(ring, first + 2 * h - 1, node);
      assert Hits(ring, first, 2 * h - 1, node)
          == Hits(ring, first, 2 * (h - 1), node) + Hit(ring, first + 2 * h - 2, node);
    }
  }

  lemma OneRequest(ring: seq<nat>, first: nat, node: nat)
    requires ring != []
    ensures StrideHits(ring, first, 1, node) == Hit(ring, first, node)
  {
    hide Hit;
    assert StrideHits(ring, first, 1, node) == StrideHits(ring, first, 0, node) + Hit(ring, first, node);
  }

  lemma LastDraw(ring: seq<nat>, first: nat, draws: nat, node: nat)
    requires ring != []
    ensures Hits(ring, first, draws + 1, node) == Hits(ring, first, draws, node) + Hit(ring, first + draws, node)
  {
    hide Hit;
  }

  /** An odd ring's stride visits the even draws of one turn, then the odd ones of the next. */
  lemma OddTurn(ring: seq<nat>, h: nat, first: nat, node: nat)
    requires |ring| == 2 * h + 1
    ensures StrideHits(ring, first, |ring|, node)
         == StrideHits(ring, first, h, node) + Hit(ring, first + 2 * h, node) + StrideHits(ring, first + 1, h, node)
  {
    hide Hit, StrideHits;
    StrideSplit(ring, first, h + 1, h, node);
    assert first + 2 * (h + 1) == first + 1 + |ring|;
    StridePeriodic(ring, first + 1, h, node);
    StrideSplit(ring, first, h, 1, node);
    OneRequest(ring, first + 2 * h, node);
  }

  lemma OddStrideIsFair(ring: seq<nat>, first: nat, node: nat)
    requires |ring| % 2 == 1
    ensures StrideHits(ring, first, |ring|, node) == Count(ring, node)
  {
    var h := |ring| / 2;
    assert |ring| == 2 * h + 1;
    hide Hit, Hits, StrideHits, Count;
    OddTurn(ring, h, first, node);
    StridesInterleave(ring, first, h, node);
    LastDraw(ring, first, 2 * h, node);
    FullTurn(ring, first, node);
  }

  /** With an even ring the stride stays on the positions of one parity and visits each twice. */
  lemma {:induction false} EvenStrideStaysOnOneParity(ring: seq<nat>, first: nat, h: nat, node: nat)
    requires |ring| == 2 * h > 0
    ensures StrideHits(ring, first, |ring|, node) == 2 * StrideHits(ring, first % 2, h, node)
  {
    StrideSplit(ring, first, h, h, node);
    StridePeriodic(ring, first, h, node);
    StrideHalfTurn(ring, first, h, node);
  }

  lemma {:induction false} StrideHalfTurn(ring: seq<nat>, first: nat, h: nat, node: nat)
    requires |ring| == 2 * h > 0
    ensures StrideHits(ring, first, h, node) == StrideHits(ring, first % 2, h, node)
    decreases first
  {
    hide StrideHits;
    if first >= 2 {
      StrideHalfTurn(ring, first - 2, h, node);
      StrideMovesOn(ring, first - 2, h, node);
    }
  }

  lemma StrideMovesOn(ring: seq<nat>, first: nat, h: nat, node: nat)
    requires |ring| == 2 * h > 0
    ensures StrideHits(ring, first + 2, h, node) == StrideHits(ring, first, h, node)
  {
    StrideSplit(ring, first, 1, h, node);
    StrideSplit(ring, first, h, 1, node);
    SlotPeriodic(ring, first);
    OneRequest(ring, first, node);
    OneRequest(ring, first + 2 * h, node);
    hide StrideHits, Slot;
  }

  /** Slots two by two the same. */
  predicate Paired(ring: seq<nat>) {
    |ring| % 2 == 0 && forall p :: 0 <= p < |ring| / 2 ==> ring[2 * p] == ring[2 * p + 1]
  }

  lemma PairedAppend(a: seq<nat>, b: seq<nat>)
    requires Paired(a) && Paired(b)
    ensures Paired(a + b)
  {
    var ring, half := a + b, |a| / 2;
    forall p | 0 <= p < |ring| / 2 ensures ring[2 * p] == ring[2 * p + 1] {
      if p < half {
        assert a[2 * p] == a[2 * p + 1];
      } else {
        assert b[2 * (p - half)] == b[2 * (p - half) + 1];
      }
    }
  }

  /** Blocks of even length fill the ring pair by pair. */
  lemma {:induction false} EvenWeightsBalance(weights: seq<nat>)
    requires forall w <- weights :: w % 2 == 0
    ensures Paired(Blocks(weights))
  {
    if weights != [] {
      var k := |weights| - 1;
      assert weights[k] in weights && forall w <- weights[..k] :: w in weights;
      EvenWeightsBalance(weights[..k]);
      var block := Repeat(k, weights[k]);
      assert Paired(block);
      hide Paired, Repeat;
      PairedAppend(Blocks(weights[..k]), block);
    }
  }

  lemma {:induction false} PairedSlotsStrideAlike(ring: seq<nat>, m: nat, node: nat)
    requires ring != [] && 2 * m <= |ring| && Paired(ring)
    ensures StrideHits(ring, 0, m, node) == StrideHits(ring, 1, m, node)
  {
    if m > 0 {
      PairedSlotsStrideAlike(ring, m - 1, node);
      assert ring[2 * (m - 1)] == ring[2 * (m - 1) + 1];
    }
  }

  /** Serving W requests, the first of them with counter value `first`, gives the node its exact weight. */
  ghost predicate FairTo(weights: seq<nat>, first: nat, node: nat)
    requires Blocks(weights) != [] && node < |weights|
  {
    StrideHits(Blocks(weights), first, |Blocks(weights)|, node) == weights[node]
  }

  /** Serving W requests from there gives every node its exact weight. */
  ghost predicate RequestsAreFair(weights: seq<nat>, first: nat)
    requires Blocks(weights) != []
  {
    forall node: nat :: node < |weights| ==> FairTo(weights, first, node)
  }

  lemma EvenRingHalves(ring: seq<nat>, h: nat, first: nat, node: nat)
    requires |ring| == 2 * h > 0
    ensures StrideHits(ring, first, |ring|, node) == 2 * StrideHits(ring, first % 2, h, node)
    ensures StrideHits(ring, 0, h, node) + StrideHits(ring, 1, h, node) == Count(ring, node)
  {
    EvenStrideStaysOnOneParity(ring, first, h, node);
    StridesInterleave(ring, 0, h, node);
    FullTurn(ring, 0, node);
  }

  lemma PairedRingIsFair(ring: seq<nat>, h: nat, first: nat, node: nat)
    requires |ring| == 2 * h > 0 && Paired(ring)
    ensures StrideHits(ring, first, |ring|, node) == Count(ring, node)
  {
    EvenRingHalves(ring, h, first, node);
    PairedSlotsStrideAlike(ring, h, node);
  }

  lemma OddCountIsUnfair(ring: seq<nat>, h: nat, first: nat, node: nat)
    requires |ring| == 2 * h > 0 && Count(ring, node) % 2 == 1
    ensures StrideHits(ring, first, |ring|, node) != Count(ring, node)
  {
    EvenRingHalves(ring, h, first, node);
  }

  lemma OddTotalIsFair(weights: seq<nat>, first: nat)
    requires |Blocks(weights)| % 2 == 1
    ensures RequestsAreFair(weights, first)
  {
    forall node: nat | node < |weights| ensures FairTo(weights, first, node) {
      OddStrideIsFair(Blocks(weights), first, node);
      RingHoldsWeights(weights);
    }
  }

  lemma EvenWeightsAreFair(weights: seq<nat>, first: nat)
    requires Blocks(weights) != [] && forall w <- weights :: w % 2 == 0
    ensures RequestsAreFair(weights, first)
  {
    EvenWeightsBalance(weights);
    RingHoldsWeights(weights);
    forall node: nat | node < |weights| ensures FairTo(weights, first, node) {
      PairedRingIsFair(Blocks(weights), |Blocks(weights)| / 2, first, node);
    }
  }

  lemma OddWeightInEvenTotalIsUnfair(weights: seq<nat>, first: nat, node: nat)
    requires Blocks(weights) != [] && |Blocks(weights)| % 2 == 0
    requires node < |weights| && weights[node] % 2 == 1
    ensures !FairTo(weights, first, node)
  {
    RingHoldsWeights(weights);
    OddCountIsUnfair(Blocks(weights), |Blocks(weights)| / 2, first, node);
  }

  /** The total weight is odd, or every single weight is even. */
  predicate StridesEvenly(weights: seq<nat>) {
    Sum(weights) % 2 == 1 || forall w <- weights :: w % 2 == 0
  }

  /** Per-request fairness, exactly, from whatever counter value the first request is served with. */
  lemma RequestsAreFairIff(weights: seq<nat>, first: nat)
    requires Blocks(weights) != []
    ensures |Blocks(weights)| == Sum(weights)
    ensures RequestsAreFair(weights, first) <==> StridesEvenly(weights)
  {
    RingHoldsWeights(weights);
    if Sum(weights) % 2 == 1 {
      OddTotalIsFair(weights, first);
    } else if forall w <- weights :: w % 2 == 0 {
      EvenWeightsAreFair(weights, first);
    } else {
      var node: nat :| node < |weights| && weights[node] % 2 != 0;
      OddWeightInEvenTotalIsUnfair(weights, first, node);
    }
  }
}
