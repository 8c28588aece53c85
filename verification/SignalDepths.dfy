/** Combinational depth of signals: component costs, and what the reported depth means for signal paths. */
module SignalDepths {
  import opened Arithmetic
  import opened Condensation
  import opened Dags
  import opened Digraphs
  import opened Tarjan

  /** The assignment graph under construction: edges, their weights, and the clocked destinations. */
  datatype Design = Design(graph: Graph, weights: Weights, registers: set<Signal>)

  /** Weights are non-negative, and between known signals exactly the edges have one. */
  ghost predicate Weighted(d: Design) {
    && (forall a, b :: Edge(d.graph, a, b) ==> (a, b) in d.weights)
    && (forall a, b :: (a, b) in d.weights && a in NodesOf(d.graph) && b in NodesOf(d.graph) ==> Edge(d.graph, a, b))
    && (forall e <- d.weights :: d.weights[e] >= 0)
  }

  function AddEdge(d: Design, source: Signal, target: Signal, weight: int): Design {
    var known := if (source, target) in d.weights then d.weights[(source, target)] else 0;
    d.(graph := d.graph[source := Successors(d.graph, source) + {target}],
       weights := d.weights[(source, target) := Max(known, Max(0, weight))])
  }

  /** Adding edges one at a time keeps the weights in step with the graph, each edge holding the largest
      non-negative weight it was given. */
  lemma AddEdgeKeepsWeighted(d: Design, source: Signal, target: Signal, weight: int)
    requires Weighted(d)
    requires forall a, b :: (a, b) in d.weights ==> Edge(d.graph, a, b)
    ensures Weighted(AddEdge(d, source, target, weight))
    ensures forall a, b :: (a, b) in AddEdge(d, source, target, weight).weights ==>
              Edge(AddEdge(d, source, target, weight).graph, a, b)
    ensures var d' := AddEdge(d, source, target, weight);
            && (forall a, b :: Edge(d'.graph, a, b) <==> Edge(d.graph, a, b) || (a == source && b == target))
            && (forall e :: e in d'.weights <==> e in d.weights || e == (source, target))
            && (forall e <- d.weights :: e != (source, target) ==> d'.weights[e] == d.weights[e])
            && d'.registers == d.registers
    ensures var e := (source, target);
            var w := AddEdge(d, source, target, weight).weights[e];
            && w >= weight && w >= 0 && (e in d.weights ==> w >= d.weights[e])
            && (w == weight || w == 0 || (e in d.weights && w == d.weights[e]))
  {
    var d' := AddEdge(d, source, target, weight);
    forall a, b | Edge(d'.graph, a, b)
      ensures (a, b) in d'.weights
    {
      assert Edge(d.graph, a, b) || (a == source && b == target);
    }
    forall a, b | (a, b) in d'.weights
      ensures Edge(d'.graph, a, b)
    {
      assert (a, b) in d.weights || (a == source && b == target);
    }
  }

  /** The design without some signals: their nodes and all edges to them are gone, the weights stay. */
  function Without(d: Design, removed: set<Signal>): Design {
    d.(graph := map x | x in d.graph && x !in removed :: d.graph[x] - removed)
  }

  /** Removing the loop counters removes exactly the edges that touch them and keeps the weights in step. */
  lemma RemovalKeepsWeighted(d: Design, removed: set<Signal>)
    requires Weighted(d)
    ensures Without(d, removed).weights == d.weights && Without(d, removed).registers == d.registers
    ensures Weighted(Without(d, removed)) && NodesOf(Without(d, removed).graph) <= NodesOf(d.graph) - removed
    ensures forall a, b :: Edge(Without(d, removed).graph, a, b) <==>
              Edge(d.graph, a, b) && a !in removed && b !in removed
  {
    var g := Without(d, removed).graph;
    forall a, b
      ensures Edge(g, a, b) <==> Edge(d.graph, a, b) && a !in removed && b !in removed
    {
    }
    forall x | x in NodesOf(g)
      ensures x in NodesOf(d.graph) - removed
    {
      if x !in g {
        var a :| a in g && x in g[a];
        assert Edge(g, a, x);
      }
    }
  }

  function RowWeights(weights: Weights, a: Signal, bs: seq<Signal>): seq<int> {
    if bs == [] then []
    else (if (a, bs[0]) in weights then [weights[(a, bs[0])]] else []) + RowWeights(weights, a, bs[1..])
  }

  function WeightsBetween(weights: Weights, sources: seq<Signal>, bs: seq<Signal>): seq<int> {
    if sources == [] then [] else RowWeights(weights, sources[0], bs) + WeightsBetween(weights, sources[1..], bs)
  }

  function MaxOr(values: seq<int>, default: int): int {
    if values == [] then default
    else if |values| == 1 then values[0]
    else Max(values[0], MaxOr(values[1..], default))
  }

  lemma {:induction false} MaxOrIsMax(values: seq<int>, default: int)
    requires values != []
    ensures MaxOr(values, default) in values
    ensures forall v <- values :: v <= MaxOr(values, default)
  {
    if |values| > 1 {
      MaxOrIsMax(values[1..], default);
      forall v | v in values
        ensures v <= MaxOr(values, default)
      {
        assert v == values[0] || v in values[1..];
      }
    }
  }

  lemma {:induction false} RowWeightsMembers(weights: Weights, a: Signal, bs: seq<Signal>, w: int)
    ensures w in RowWeights(weights, a, bs) <==> exists b :: b in bs && (a, b) in weights && weights[(a, b)] == w
  {
    if bs != [] {
      RowWeightsMembers(weights, a, bs[1..], w);
      if b :| b in bs && (a, b) in weights && weights[(a, b)] == w {
        assert b == bs[0] || b in bs[1..];
      }
    }
  }

  lemma {:induction false} WeightsBetweenMembers(weights: Weights, sources: seq<Signal>, bs: seq<Signal>, w: int)
    ensures w in WeightsBetween(weights, sources, bs) <==>
            exists a, b :: a in sources && b in bs && (a, b) in weights && weights[(a, b)] == w
  {
    if sources != [] {
      RowWeightsMembers(weights, sources[0], bs, w);
      WeightsBetweenMembers(weights, sources[1..], bs, w);
      if a, b :| a in sources && b in bs && (a, b) in weights && weights[(a, b)] == w {
        assert a == sources[0] || a in sources[1..];
      }
    }
  }

  predicate HoldsRegister(d: Design, component: seq<Signal>) {
    exists i :: 0 <= i < |component| && component[i] in d.registers
  }

  /** A component that holds a register launches at no cost; otherwise the heaviest edge counts. */
  function EdgeCost(d: Design, components: Components, left: int, right: int): int {
    if !(0 <= left < |components| && 0 <= right < |components|) then 0
    else if HoldsRegister(d, components[left]) then 0
    else MaxOr(WeightsBetween(d.weights, components[left], components[right]), 1)
  }

  function CostOf(d: Design, components: Components): Cost {
    (left, right) => EdgeCost(d, components, left, right)
  }

  lemma CostIsNonNegative(d: Design, components: Components)
    requires forall e <- d.weights :: d.weights[e] >= 0
    ensures NonNegative(CostOf(d, components))
  {
    forall u, v
      ensures CostOf(d, components)(u, v) >= 0
    {
      if 0 <= u < |components| && 0 <= v < |components| {
        var ws := WeightsBetween(d.weights, components[u], components[v]);
        if ws != [] {
          MaxOrIsMax(ws, 1);
          WeightsBetweenMembers(d.weights, components[u], components[v], MaxOr(ws, 1));
        }
      }
    }
  }

  // ----- what signal paths cost

  /** Nothing is charged on the way out of a register, nor out of what it forms a loop with. */
  ghost predicate Launches(d: Design, a: Signal) {
    exists r :: r in d.registers && MutualReach(d.graph, a, r)
  }

  /** What one signal edge adds to a path: its weight, unless it lies on a loop or launches. */
  ghost function Hop(d: Design, a: Signal, b: Signal): int {
    if MutualReach(d.graph, a, b) || Launches(d, a) || (a, b) !in d.weights then 0 else d.weights[(a, b)]
  }

  ghost function SignalCost(d: Design, p: seq<Signal>): int {
    if |p| < 2 then 0 else SignalCost(d, p[..|p| - 1]) + Hop(d, p[|p| - 2], p[|p| - 1])
  }

  /** A design whose components have been found, numbered and condensed. */
  ghost predicate Ready(d: Design, components: Components, componentOf: map<Signal, int>, dag: Dag) {
    && Weighted(d) && GoodComponents(d.graph, components) && Condensed(d.graph, components, componentOf, dag)
    && (forall x :: Emitted(components, x) <==> x in NodesOf(d.graph))
  }

  /** Loops are components, and signals launch where their component holds a register. */
  lemma ChargesByComponent(d: Design, components: Components, componentOf: map<Signal, int>, dag: Dag, a: Signal,
                           b: Signal)
    requires Ready(d, components, componentOf, dag) && a in componentOf && b in componentOf
    ensures componentOf[a] == componentOf[b] <==> MutualReach(d.graph, a, b)
    ensures HoldsRegister(d, components[componentOf[a]]) <==> Launches(d, a)
  {
    hide Reach, NodesOf, Weighted, HoldsRegister, Launches;
    SharedIsMutual(d, components, componentOf, dag, a, b);
    RegisterLaunches(d, components, componentOf, dag, a);
  }

  lemma SharedIsMutual(d: Design, components: Components, componentOf: map<Signal, int>, dag: Dag, a: Signal,
                       b: Signal)
    requires Ready(d, components, componentOf, dag) && a in componentOf && b in componentOf
    ensures componentOf[a] == componentOf[b] <==> MutualReach(d.graph, a, b)
  {
    hide Reach, NodesOf, Weighted, MutualReach, GoodComponents;
    TogetherIffMutual(d.graph, components, a, b);
    if i :| 0 <= i < |components| && a in components[i] && b in components[i] {
      GoodIsApart(d.graph, components);
      MemberIsIndexed(components, componentOf, i, a);
      MemberIsIndexed(components, componentOf, i, b);
    }
  }

  lemma GoodIsApart(g: Graph, components: Components)
    requires GoodComponents(g, components)
    ensures Apart(components)
  {
  }

  lemma RegisterLaunches(d: Design, components: Components, componentOf: map<Signal, int>, dag: Dag, a: Signal)
    requires Ready(d, components, componentOf, dag) && a in componentOf
    ensures 0 <= componentOf[a] < |components|
    ensures HoldsRegister(d, components[componentOf[a]]) <==> Launches(d, a)
  {
    hide Reach, Weighted, MutualReach, GoodComponents;
    var component := components[componentOf[a]];
    if i :| 0 <= i < |component| && component[i] in d.registers {
      GoodIsApart(d.graph, components);
      MemberIsIndexed(components, componentOf, componentOf[a], component[i]);
      SharedIsMutual(d, components, componentOf, dag, a, component[i]);
    }
    if r :| r in d.registers && MutualReach(d.graph, a, r) {
      MutualIsNode(d.graph, a, r);
      SharedIsMutual(d, components, componentOf, dag, a, r);
      assert r in component;
    }
  }

  lemma MutualIsNode(g: Graph, a: Signal, r: Signal)
    requires MutualReach(g, a, r) && a in NodesOf(g)
    ensures r in NodesOf(g)
  {
    var p :| PathFromTo(g, p, a, r);
    if |p| > 1 {
      PrefixIsPath(g, p);
      EdgeEndsAreNodes(g, p[|p| - 2], r);
    }
  }

  /** Everything known about a design once it has been condensed and ordered. */
  ghost predicate Analysed(d: Design, components: Components, componentOf: map<Signal, int>, dag: Dag,
                           depth: map<int, int>, parent: map<int, int>)
  {
    && Ready(d, components, componentOf, dag)
    && LP.Deepest(|components|, dag, CostOf(d, components), depth, parent)
  }

  lemma HopIsNonNegative(d: Design, a: Signal, b: Signal)
    requires Weighted(d)
    ensures Hop(d, a, b) >= 0
  {
  }

  lemma HopIsPaid(d: Design, components: Components, componentOf: map<Signal, int>, dag: Dag, a: Signal, b: Signal)
    requires Ready(d, components, componentOf, dag)
    requires Edge(d.graph, a, b) && a in componentOf && b in componentOf
    ensures componentOf[a] == componentOf[b] ==> Hop(d, a, b) == 0
    ensures componentOf[a] != componentOf[b] ==>
              && componentOf[b] in Next(dag, componentOf[a])
              && Hop(d, a, b) <= CostOf(d, components)(componentOf[a], componentOf[b])
  {
    hide MutualReach, Launches, HoldsRegister, GoodComponents, NodesOf;
    var u, v := componentOf[a], componentOf[b];
    ChargesByComponent(d, components, componentOf, dag, a, b);
    if u != v {
      assert EdgeBetween(d.graph, componentOf, u, v, a, b);
      if !HoldsRegister(d, components[u]) {
        var w, ws := d.weights[(a, b)], WeightsBetween(d.weights, components[u], components[v]);
        WeightsBetweenMembers(d.weights, components[u], components[v], w);
        assert w in ws;
        MaxOrIsMax(ws, 1);
      }
    }
  }

  /** Each condensed edge stands for a signal edge that costs exactly as much. */
  lemma SomeHopAttains(d: Design, components: Components, componentOf: map<Signal, int>, dag: Dag, u: int, v: int)
    returns (a: Signal, b: Signal)
    requires Ready(d, components, componentOf, dag)
    requires v in Next(dag, u)
    ensures EdgeBetween(d.graph, componentOf, u, v, a, b)
    ensures Hop(d, a, b) == CostOf(d, components)(u, v)
  {
    hide MutualReach, Launches, HoldsRegister, GoodComponents, NodesOf;
    assert Crosses(d.graph, componentOf, u, v);
    a, b :| EdgeBetween(d.graph, componentOf, u, v, a, b);
    if !HoldsRegister(d, components[u]) {
      a, b := HeaviestEdge(d, components, componentOf, dag, u, v, a, b);
    }
    ChargesByComponent(d, components, componentOf, dag, a, b);
  }

  lemma HeaviestEdge(d: Design, components: Components, componentOf: map<Signal, int>, dag: Dag, u: int, v: int,
                     a0: Signal, b0: Signal) returns (a: Signal, b: Signal)
    requires Ready(d, components, componentOf, dag) && EdgeBetween(d.graph, componentOf, u, v, a0, b0)
    ensures EdgeBetween(d.graph, componentOf, u, v, a, b) && (a, b) in d.weights
    ensures d.weights[(a, b)] == MaxOr(WeightsBetween(d.weights, components[u], components[v]), 1)
  {
    hide Strong, TargetsFirst;
    var ws := WeightsBetween(d.weights, components[u], components[v]);
    WeightsBetweenMembers(d.weights, components[u], components[v], d.weights[(a0, b0)]);
    assert d.weights[(a0, b0)] in ws;
    MaxOrIsMax(ws, 1);
    WeightsBetweenMembers(d.weights, components[u], components[v], MaxOr(ws, 1));
    a, b :| a in components[u] && b in components[v] && (a, b) in d.weights && d.weights[(a, b)] == MaxOr(ws, 1);
    MemberIsIndexed(components, componentOf, u, a);
    MemberIsIndexed(components, componentOf, v, b);
  }

  lemma MemberIsIndexed(components: Components, componentOf: map<Signal, int>, i: int, x: Signal)
    requires Indexed(components, componentOf) && Apart(components)
    requires 0 <= i < |components| && x in components[i]
    ensures Emitted(components, x) && x in componentOf && componentOf[x] == i
  {
  }

  lemma DepthPaysEdge(n: nat, dag: Dag, cost: Cost, depth: map<int, int>, parent: map<int, int>, u: int, v: int)
    requires LP.Deepest(n, dag, cost, depth, parent) && Descending(n, dag) && v in Next(dag, u)
    ensures u in depth && v in depth && depth[u] + cost(u, v) <= depth[v]
  {
    assert LP.ChainAttains(n, dag, cost, depth, parent, u) && LP.ChainAttains(n, dag, cost, depth, parent, v);
    var p := LP.Chain(n, parent, u);
    PathSnoc(dag, p, v);
    PathCostSnoc(cost, p, v);
    assert Last(p + [v]) == v;
  }

  lemma PrefixIsPath(g: Graph, p: seq<Signal>)
    requires IsPath(g, p) && |p| > 1
    ensures IsPath(g, p[..|p| - 1]) && Edge(g, p[|p| - 2], p[|p| - 1])
  {
  }

  /** No signal path into `x` costs more than the depth reported for `x`. */
  lemma {:induction false} SignalPathIsBounded(d: Design, components: Components, componentOf: map<Signal, int>,
      dag: Dag, depth: map<int, int>, parent: map<int, int>, p: seq<Signal>)
    requires Analysed(d, components, componentOf, dag, depth, parent)
    requires IsPath(d.graph, p) && p[|p| - 1] in componentOf
    ensures componentOf[p[|p| - 1]] in depth
    ensures SignalCost(d, p) <= depth[componentOf[p[|p| - 1]]]
    decreases |p|
  {
    hide Condensed, GoodComponents, Weighted, LP.Deepest, Hop;
    var x := p[|p| - 1];
    KnownFacts(d.graph, components, componentOf, dag);
    DepthIsNonNegative(|components|, dag, CostOf(d, components), depth, parent, componentOf[x]);
    if |p| > 1 {
      var q, a := p[..|p| - 1], p[|p| - 2];
      PrefixIsPath(d.graph, p);
      EdgeEndsAreNodes(d.graph, a, x);
      SignalPathIsBounded(d, components, componentOf, dag, depth, parent, q);
      HopIsPaid(d, components, componentOf, dag, a, x);
      if componentOf[a] != componentOf[x] {
        DepthPaysEdge(|components|, dag, CostOf(d, components), depth, parent, componentOf[a], componentOf[x]);
      }
    }
  }

  lemma KnownFacts(g: Graph, components: Components, componentOf: map<Signal, int>, dag: Dag)
    requires Condensed(g, components, componentOf, dag)
    ensures Descending(|components|, dag)
    ensures forall x :: Emitted(components, x) ==> x in componentOf
    ensures forall x <- componentOf :: 0 <= componentOf[x] < |components|
  {
  }

  lemma DepthIsNonNegative(n: nat, dag: Dag, cost: Cost, depth: map<int, int>, parent: map<int, int>, v: int)
    requires LP.Deepest(n, dag, cost, depth, parent) && 0 <= v < n
    ensures v in depth && depth[v] >= 0
  {
    assert LP.ChainAttains(n, dag, cost, depth, parent, v);
    assert IsDagPath(dag, [v]) && Last([v]) == v;
    assert PathCost(cost, [v]) == 0;
  }

  lemma {:induction false} SignalCostConcat(d: Design, p: seq<Signal>, q: seq<Signal>)
    requires p != [] && q != [] && q[0] == p[|p| - 1]
    ensures SignalCost(d, p + q[1..]) == SignalCost(d, p) + SignalCost(d, q)
    decreases |q|
  {
    hide Hop;
    if |q| == 1 {
      assert p + q[1..] == p;
    } else {
      var q', r := q[..|q| - 1], p + q[1..];
      SignalCostConcat(d, p, q');
      assert r[..|r| - 1] == p + q'[1..];
      assert r[|r| - 2] == q[|q| - 2] && r[|r| - 1] == q[|q| - 1];
    }
  }

  lemma {:induction false} SignalCostNonNegative(d: Design, q: seq<Signal>)
    requires Weighted(d)
    ensures SignalCost(d, q) >= 0
    decreases |q|
  {
    hide Weighted, Hop;
    if |q| > 1 {
      SignalCostNonNegative(d, q[..|q| - 1]);
      HopIsNonNegative(d, q[|q| - 2], q[|q| - 1]);
    }
  }

  /** A path may be continued over an edge and then inside its target's component. */
  lemma ExtendSignalPath(d: Design, q: seq<Signal>, a: Signal, b: Signal, x: Signal) returns (p: seq<Signal>)
    requires Weighted(d)
    requires IsPath(d.graph, q) && q[|q| - 1] == a && Edge(d.graph, a, b) && Reach(d.graph, b, x)
    ensures IsPath(d.graph, p) && p[|p| - 1] == x
    ensures SignalCost(d, p) >= SignalCost(d, q) + Hop(d, a, b)
  {
    hide Weighted, Hop;
    var r :| PathFromTo(d.graph, r, b, x);
    assert PathFromTo(d.graph, [a, b], a, b);
    JoinPaths(d.graph, q, [a, b]);
    var qb := q + [a, b][1..];
    assert qb == q + [b] && qb[..|qb| - 1] == q;
    JoinPaths(d.graph, qb, r);
    SignalCostConcat(d, qb, r);
    SignalCostNonNegative(d, r);
    p := qb + r[1..];
  }

  lemma EdgeEndsAreNodes(g: Graph, a: Signal, b: Signal)
    requires Edge(g, a, b)
    ensures a in NodesOf(g) && b in NodesOf(g)
  {
  }

  lemma JoinPaths(g: Graph, p: seq<Signal>, q: seq<Signal>)
    requires IsPath(g, p) && IsPath(g, q) && q[0] == p[|p| - 1]
    ensures IsPath(g, p + q[1..]) && (p + q[1..])[|p + q[1..]| - 1] == q[|q| - 1]
  {
    var r := p + q[1..];
    forall i, j | 0 <= i < j < |r| && j == i + 1
      ensures Edge(g, r[i], r[j])
    {
      if j < |p| {
        assert Edge(g, p[i], p[j]);
      } else {
        assert Edge(g, q[i - |p| + 1], q[j - |p| + 1]);
      }
    }
  }

  /** Some signal path into `x` costs as much as the depth reported for `x`. */
  lemma {:induction false} SignalPathAttains(d: Design, components: Components, componentOf: map<Signal, int>,
      dag: Dag, depth: map<int, int>, parent: map<int, int>, x: Signal) returns (p: seq<Signal>)
    requires Analysed(d, components, componentOf, dag, depth, parent)
    requires x in componentOf
    ensures IsPath(d.graph, p) && p[|p| - 1] == x
    ensures componentOf[x] in depth
    ensures SignalCost(d, p) == depth[componentOf[x]]
    decreases |components| - componentOf[x]
  {
    hide Weighted, GoodComponents, Condensed, LP.Deepest, Hop, CostOf, Reach;
    KnownFacts(d.graph, components, componentOf, dag);
    if componentOf[x] !in parent {
      RootDepth(|components|, dag, CostOf(d, components), depth, parent, componentOf[x]);
      p := [x];
    } else {
      var a, b := ChildHop(d, components, componentOf, dag, depth, parent, x);
      var q := SignalPathAttains(d, components, componentOf, dag, depth, parent, a);
      p := ExtendSignalPath(d, q, a, b, x);
      SignalPathIsBounded(d, components, componentOf, dag, depth, parent, p);
    }
  }

  lemma RootDepth(n: nat, dag: Dag, cost: Cost, depth: map<int, int>, parent: map<int, int>, v: int)
    requires LP.Deepest(n, dag, cost, depth, parent) && 0 <= v < n && v !in parent
    ensures v in depth && depth[v] == 0
  {
    assert LP.ChainAttains(n, dag, cost, depth, parent, v);
    assert LP.Chain(n, parent, v) == [v];
  }

  /** The edge over which the depth of the component of `x` was reached. */
  lemma ChildHop(d: Design, components: Components, componentOf: map<Signal, int>, dag: Dag, depth: map<int, int>,
                 parent: map<int, int>, x: Signal) returns (a: Signal, b: Signal)
    requires Analysed(d, components, componentOf, dag, depth, parent) && x in componentOf && componentOf[x] in parent
    ensures a in componentOf && componentOf[x] < componentOf[a] < |components|
    ensures Edge(d.graph, a, b) && Reach(d.graph, b, x)
    ensures componentOf[a] in depth && componentOf[x] in depth
    ensures depth[componentOf[x]] == depth[componentOf[a]] + Hop(d, a, b)
  {
    hide Weighted, LP.Deepest, Hop, CostOf, Reach;
    var v := componentOf[x];
    var u := parent[v];
    KnownFacts(d.graph, components, componentOf, dag);
    ParentIsNext(|components|, dag, CostOf(d, components), depth, parent, v);
    DepthOfChild(|components|, dag, CostOf(d, components), depth, parent, v);
    a, b := SomeHopAttains(d, components, componentOf, dag, u, v);
    assert Strong(d.graph, components[v]) && Reach(d.graph, b, x);
  }

  lemma ParentIsNext(n: nat, dag: Dag, cost: Cost, depth: map<int, int>, parent: map<int, int>, v: int)
    requires LP.Deepest(n, dag, cost, depth, parent) && 0 <= v < n && v in parent
    ensures v in Next(dag, parent[v])
  {
    assert LP.ChainAttains(n, dag, cost, depth, parent, v);
  }

  lemma DepthOfChild(n: nat, dag: Dag, cost: Cost, depth: map<int, int>, parent: map<int, int>, v: int)
    requires LP.Deepest(n, dag, cost, depth, parent) && 0 <= v < n && v in parent
    ensures v < parent[v] < n && parent[v] in depth && v in depth
    ensures parent[v] in depth && depth[v] == depth[parent[v]] + cost(parent[v], v)
  {
    var u := parent[v];
    assert LP.ChainAttains(n, dag, cost, depth, parent, v) && LP.ChainAttains(n, dag, cost, depth, parent, u);
    PathCostSnoc(cost, LP.Chain(n, parent, u), v);
  }

  /** The depth reported for a signal is the largest cost of any signal path that ends in it. */
  ghost predicate IsDepthOf(d: Design, x: Signal, depth: int) {
    && (forall p :: IsPath(d.graph, p) && p[|p| - 1] == x ==> SignalCost(d, p) <= depth)
    && (exists p :: IsPath(d.graph, p) && p[|p| - 1] == x && SignalCost(d, p) == depth)
  }

  lemma ReportedDepthIsLongestPath(d: Design, components: Components, componentOf: map<Signal, int>, dag: Dag,
                                   depth: map<int, int>, parent: map<int, int>, x: Signal)
    requires Analysed(d, components, componentOf, dag, depth, parent) && x in componentOf
    ensures componentOf[x] in depth && IsDepthOf(d, x, depth[componentOf[x]])
  {
    var p := SignalPathAttains(d, components, componentOf, dag, depth, parent, x);
    forall q | IsPath(d.graph, q) && q[|q| - 1] == x
      ensures SignalCost(d, q) <= depth[componentOf[x]]
    {
      SignalPathIsBounded(d, components, componentOf, dag, depth, parent, q);
    }
  }

  lemma AllReported(d: Design, components: Components, componentOf: map<Signal, int>, dag: Dag,
                    depth: map<int, int>, parent: map<int, int>)
    requires Analysed(d, components, componentOf, dag, depth, parent)
    ensures componentOf.Keys == NodesOf(d.graph)
    ensures forall x <- componentOf ::
              componentOf[x] in depth && IsDepthOf(d, x, depth[componentOf[x]])
  {
    hide LP.Deepest, IsDepthOf;
    forall x | x in componentOf
      ensures componentOf[x] in depth && IsDepthOf(d, x, depth[componentOf[x]])
    {
      ReportedDepthIsLongestPath(d, components, componentOf, dag, depth, parent, x);
    }
  }
}
