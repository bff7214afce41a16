/** Weighted rings: how a pool's enabled nodes are laid out for round robin. */
module Ring {
  import opened Wrappers
  import opened ConfigTypes
  import Arithmetic
  import Seqs
  import Text

  const MAX_NODE_WEIGHT := 100

  const COUNTER_MODULUS := 0x1_0000_0000_0000_0000

  /** A counter after some more draws. */
  function Drawn(counter: nat, draws: nat): (value: nat)
    ensures value < COUNTER_MODULUS
  {
    (counter + draws) % COUNTER_MODULUS
  }

  lemma DrawnNext(counter: nat, draws: nat)
    ensures Drawn(Drawn(counter, draws), 1) == Drawn(counter, draws + 1)
    ensures counter + draws < COUNTER_MODULUS ==> Drawn(counter, draws) == counter + draws
  {
    Arithmetic.ModSuccessor(counter + draws, COUNTER_MODULUS);
    if counter + draws < COUNTER_MODULUS {
      Arithmetic.QuotientUnique(counter + draws, COUNTER_MODULUS, 0, counter + draws);
    }
  }

  function NormalizeNodeWeight(weight: int): (w: nat)
    ensures 1 <= w <= MAX_NODE_WEIGHT
    ensures 1 <= weight <= MAX_NODE_WEIGHT ==> w == weight
  {
    if weight <= 0 then 1 else if weight > MAX_NODE_WEIGHT then MAX_NODE_WEIGHT else weight
  }

  datatype CompiledNode = CompiledNode(id: string, target: Url)

  /** The nodes that take part in round robin, in order. */
  function Enabled(nodes: seq<LbNode>): seq<LbNode> {
    if nodes == [] then []
    else
      var last := nodes[|nodes| - 1];
      Enabled(nodes[..|nodes| - 1]) + (if last.enabled then [last] else [])
  }

  lemma {:induction false} EnabledExactly(nodes: seq<LbNode>)
    ensures forall n :: n in Enabled(nodes) <==> n in nodes && n.enabled
  {
    if nodes != [] {
      EnabledExactly(nodes[..|nodes| - 1]);
      assert nodes == nodes[..|nodes| - 1] + [nodes[|nodes| - 1]];
    }
  }

  predicate UpstreamsParse(parse: UrlParser, nodes: seq<LbNode>) {
    forall n <- nodes :: n.enabled ==> parse(Text.Trim(n.upstream)).Some?
  }

  function CompileNode(parse: UrlParser, node: LbNode): CompiledNode
    requires parse(Text.Trim(node.upstream)).Some?
  {
    CompiledNode(Text.Trim(node.id), parse(Text.Trim(node.upstream)).value)
  }

  function Repeat(x: nat, times: nat): (r: seq<nat>)
    ensures |r| == times && forall i :: 0 <= i < times ==> r[i] == x
  {
    seq(times, _ => x)
  }

  /** One block of equal indices per node, as long as the node's weight. */
  function Blocks(weights: seq<nat>): (r: seq<nat>)
    ensures forall i :: 0 <= i < |r| ==> r[i] < |weights|
  {
    if weights == [] then []
    else
      var k := |weights| - 1;
      Blocks(weights[..k]) + Repeat(k, weights[k])
  }

  function Weights(nodes: seq<LbNode>): (r: seq<nat>)
    ensures |r| == |nodes|
  {
    seq(|nodes|, i requires 0 <= i < |nodes| => NormalizeNodeWeight(nodes[i].weight))
  }

  function Sum(xs: seq<nat>): nat {
    if xs == [] then 0 else Sum(xs[..|xs| - 1]) + xs[|xs| - 1]
  }

  /** Occurrences of x in xs. */
  function Count(xs: seq<nat>, x: nat): (c: nat)
    ensures c > 0 <==> x in xs
    ensures c <= |xs|
  {
    if xs == [] then 0 else Count(xs[..|xs| - 1], x) + (if xs[|xs| - 1] == x then 1 else 0)
  }

  lemma {:induction false} CountAppend(a: seq<nat>, b: seq<nat>, x: nat)
    ensures Count(a + b, x) == Count(a, x) + Count(b, x)
  {
    if b == [] {
      assert a + b == a;
    } else {
      assert (a + b)[..|a + b| - 1] == a + b[..|b| - 1];
      CountAppend(a, b[..|b| - 1], x);
    }
  }

  lemma {:induction false} CountRepeat(x: nat, times: nat, y: nat)
    ensures Count(Repeat(x, times), y) == if x == y then times else 0
  {
    if times > 0 {
      assert Repeat(x, times)[..times - 1] == Repeat(x, times - 1);
      CountRepeat(x, times - 1, y);
    }
  }

  /** A ring holds each node index exactly as often as its weight says, and nothing else. */
  lemma {:induction false} RingHoldsWeights(weights: seq<nat>)
    ensures |Blocks(weights)| == Sum(weights)
    ensures forall j :: 0 <= j < |weights| ==> Count(Blocks(weights), j) == weights[j]
  {
    if weights != [] {
      var k := |weights| - 1;
      var front := weights[..k];
      RingHoldsWeights(front);
      forall j | 0 <= j < |weights| ensures Count(Blocks(weights), j) == weights[j] {
        CountAppend(Blocks(front), Repeat(k, weights[k]), j);
        CountRepeat(k, weights[k], j);
        assert Blocks(weights) == Blocks(front) + Repeat(k, weights[k]);
        assert j == k ==> k !in Blocks(front);
        hide Count, Repeat, Blocks;
      }
      hide Count;
    }
  }

  /** The compiled value of a pool: what the snapshot keeps besides the counter. */
  datatype PoolTable = PoolTable(id: string, strategy: string, nodes: seq<CompiledNode>, ring: seq<nat>) {
    predicate RingInRange() {
      forall i <- ring :: i < |nodes|
    }
  }

  function PoolStrategy(strategy: string): string {
    if Text.Trim(strategy) == "" then "weighted_rr" else Text.Trim(strategy)
  }

  function CompiledNodes(parse: UrlParser, nodes: seq<LbNode>): (r: seq<CompiledNode>)
    requires UpstreamsParse(parse, nodes)
    ensures |r| == |Enabled(nodes)|
  {
    if nodes == [] then []
    else
      var last := nodes[|nodes| - 1];
      assert forall n <- nodes[..|nodes| - 1] :: n in nodes;
      CompiledNodes(parse, nodes[..|nodes| - 1]) + (if last.enabled then [CompileNode(parse, last)] else [])
  }

  function RingOf(nodes: seq<LbNode>): (r: seq<nat>)
    ensures forall i :: 0 <= i < |r| ==> r[i] < |Enabled(nodes)|
  {
    Blocks(Weights(Enabled(nodes)))
  }

  function CompiledPoolOf(parse: UrlParser, pool: LbPool): (t: PoolTable)
    requires UpstreamsParse(parse, pool.nodes)
    ensures |t.nodes| == |Enabled(pool.nodes)| && t.RingInRange()
  {
    PoolTable(Text.Trim(pool.id), PoolStrategy(pool.strategy), CompiledNodes(parse, pool.nodes), RingOf(pool.nodes))
  }

  /** Every enabled node owns a slot, so a ring is empty only when no node is enabled and the
      two refill branches of the source never run. */
  lemma RingEmptyIffNothingEnabled(parse: UrlParser, pool: LbPool)
    requires UpstreamsParse(parse, pool.nodes)
    ensures CompiledPoolOf(parse, pool).ring == [] <==> forall n <- pool.nodes :: !n.enabled
  {
    var nodes := Enabled(pool.nodes);
    var weights := Weights(nodes);
    RingHoldsWeights(weights);
    EnabledExactly(pool.nodes);
    if nodes != [] {
      assert nodes[0] in nodes;
      assert Count(Blocks(weights), 0) == weights[0] > 0;
    }
  }

  lemma ParseSnoc(parse: UrlParser, front: seq<LbNode>, node: LbNode)
    ensures UpstreamsParse(parse, front + [node]) <==>
            UpstreamsParse(parse, front) && (node.enabled ==> parse(Text.Trim(node.upstream)).Some?)
  {
    assert forall n <- front :: n in front + [node];
    assert node in front + [node];
  }

  lemma NodesSnoc(parse: UrlParser, front: seq<LbNode>, node: LbNode)
    requires UpstreamsParse(parse, front) && UpstreamsParse(parse, front + [node])
    ensures CompiledNodes(parse, front + [node])
         == CompiledNodes(parse, front) + (if node.enabled then [CompileNode(parse, node)] else [])
  {
    Seqs.FrontOfSnoc(front, node);
  }

  lemma RingSnoc(front: seq<LbNode>, node: LbNode)
    ensures RingOf(front + [node])
         == RingOf(front)
          + (if node.enabled then Repeat(|Enabled(front)|, NormalizeNodeWeight(node.weight)) else [])
  {
    EnabledSnoc(front, node);
    hide Enabled;
    if node.enabled {
      BlocksSnoc(Enabled(front), node);
    }
  }

  lemma EnabledSnoc(front: seq<LbNode>, node: LbNode)
    ensures Enabled(front + [node]) == if node.enabled then Enabled(front) + [node] else Enabled(front)
  {
    Seqs.FrontOfSnoc(front, node);
  }

  lemma BlocksSnoc(nodes: seq<LbNode>, node: LbNode)
    ensures Blocks(Weights(nodes + [node])) == Blocks(Weights(nodes)) + Repeat(|nodes|, NormalizeNodeWeight(node.weight))
  {
    var weights := Weights(nodes + [node]);
    assert weights[..|nodes|] == Weights(nodes);
    assert weights[|nodes|] == NormalizeNodeWeight(node.weight);
    hide Repeat, Weights;
    assert Blocks(weights) == Blocks(weights[..|nodes|]) + Repeat(|nodes|, weights[|nodes|]);
  }

  /** The first n nodes of the pool have been compiled into these lists. */
  ghost predicate CompiledSoFar(parse: UrlParser, all: seq<LbNode>, n: nat, nodes: seq<CompiledNode>, ring: seq<nat>)
    requires n <= |all|
  {
    && UpstreamsParse(parse, all[..n])
    && nodes == CompiledNodes(parse, all[..n])
    && ring == RingOf(all[..n])
  }

  lemma NodeCompiled(parse: UrlParser, all: seq<LbNode>, n: nat, nodes: seq<CompiledNode>, ring: seq<nat>)
    requires n < |all| && CompiledSoFar(parse, all, n, nodes, ring)
    requires all[n].enabled ==> parse(Text.Trim(all[n].upstream)).Some?
    ensures !all[n].enabled ==> CompiledSoFar(parse, all, n + 1, nodes, ring)
    ensures all[n].enabled ==>
              CompiledSoFar(parse, all, n + 1, nodes + [CompileNode(parse, all[n])],
                            ring + Repeat(|nodes|, NormalizeNodeWeight(all[n].weight)))
  {
    Seqs.TakeSnoc(all, n);
    ParseSnoc(parse, all[..n], all[n]);
    RingSnoc(all[..n], all[n]);
    NodesSnoc(parse, all[..n], all[n]);
  }

  method CompileLoadBalancerPool(parse: UrlParser, pool: LbPool) returns (r: Result<PoolTable, string>)
    ensures r.Success? <==> UpstreamsParse(parse, pool.nodes)
    ensures r.Success? ==> r.value == CompiledPoolOf(parse, pool)
  {
    var strategy := Text.Trim(pool.strategy);
    if strategy == "" {
      strategy := "weighted_rr";
    }
    var nodes: seq<CompiledNode> := [];
    var ring: seq<nat> := [];
    for idx := 0 to |pool.nodes|
      invariant CompiledSoFar(parse, pool.nodes, idx, nodes, ring)
    {
      var node := pool.nodes[idx];
      if !node.enabled {
        NodeCompiled(parse, pool.nodes, idx, nodes, ring);
        continue;
      }
      var upstreamUrl := parse(Text.Trim(node.upstream));
      if upstreamUrl.None? {
        assert node in pool.nodes;
        return Failure("upstream is not an absolute URL");
      }
      NodeCompiled(parse, pool.nodes, idx, nodes, ring);
      nodes := nodes + [CompiledNode(Text.Trim(node.id), upstreamUrl.value)];
      var targetIndex := |nodes| - 1;
      ring := AppendSlots(ring, targetIndex, NormalizeNodeWeight(node.weight));
    }
    Seqs.TakeAll(pool.nodes);
    r := Success(PoolTable(Text.Trim(pool.id), strategy, nodes, ring));
  }

  /** The inner loop of the pool compiler: one slot per unit of weight. */
  method AppendSlots(ring: seq<nat>, targetIndex: nat, weight: nat) returns (r: seq<nat>)
    ensures r == ring + Repeat(targetIndex, weight)
  {
    r := ring;
    for times := 0 to weight
      invariant r == ring + Repeat(targetIndex, times)
    {
      r := r + [targetIndex];
    }
  }
}
