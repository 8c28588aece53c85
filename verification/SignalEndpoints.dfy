/** Endpoint distances of signals: how far, along signal paths, each kind of endpoint can be. */
module SignalEndpoints {
  import opened Collections
  import opened Condensation
  import opened Dags
  import opened Digraphs
  import EP = Endpoints
  import opened SignalDepths
  import opened Tarjan

  /** Where combinational paths end: module outputs, inputs of child instances, and the signals read by
      clocked assignments or by their enables. */
  datatype Boundary = Boundary(outputs: set<Signal>, cellInputs: set<Signal>, registerSources: set<Signal>,
                               controlSources: set<Signal>)

  function Touches(members: seq<Signal>, marked: set<Signal>): (touches: bool)
    ensures touches <==> exists x :: x in members && x in marked
  {
    members != [] && (members[0] in marked || Touches(members[1..], marked))
  }

  function TerminalKinds(boundary: Boundary, members: seq<Signal>, sink: bool): set<EP.EndpointKind> {
    (if Touches(members, boundary.outputs) then {EP.ModuleOutput} else {}) +
    (if Touches(members, boundary.cellInputs) then {EP.ChildInput} else {}) +
    (if Touches(members, boundary.registerSources) then {EP.RegisterD} else {}) +
    (if Touches(members, boundary.controlSources) then {EP.RegisterControl} else {}) +
    (if sink then {EP.CombinationalSink} else {})
  }

  function KindsOf(boundary: Boundary, components: Components, dag: Dag): EP.Kinds {
    c => if 0 <= c < |components| then TerminalKinds(boundary, components[c], Next(dag, c) == {}) else {}
  }

  /** The signals that make a component a terminal of the given kind. */
  ghost function Marked(boundary: Boundary, kind: EP.EndpointKind): set<Signal>
    requires kind != EP.CombinationalSink
  {
    match kind
    case ModuleOutput => boundary.outputs
    case ChildInput => boundary.cellInputs
    case RegisterD => boundary.registerSources
    case RegisterControl => boundary.controlSources
  }

  /** `y` ends paths of the kind: it is marked, or, for sinks, no edge leads out of its component. */
  ghost predicate EndsPaths(g: Graph, boundary: Boundary, kind: EP.EndpointKind, y: Signal) {
    if kind == EP.CombinationalSink then forall z :: Reach(g, y, z) ==> Reach(g, z, y)
    else y in Marked(boundary, kind)
  }

  /** `p` leads from `x` to an endpoint of the kind. */
  ghost predicate LeadsToEnd(d: Design, boundary: Boundary, kind: EP.EndpointKind, x: Signal, p: seq<Signal>) {
    IsPath(d.graph, p) && p[0] == x && EndsPaths(d.graph, boundary, kind, p[|p| - 1])
  }

  /** The distance is -1 when no path leads to an endpoint of the kind, and otherwise the largest cost of one. */
  ghost predicate IsDistanceTo(d: Design, boundary: Boundary, kind: EP.EndpointKind, x: Signal, distance: int) {
    && (distance == -1 <==> forall p :: !LeadsToEnd(d, boundary, kind, x, p))
    && (forall p :: LeadsToEnd(d, boundary, kind, x, p) ==> SignalCost(d, p) <= distance)
    && (distance != -1 ==>
          exists p :: LeadsToEnd(d, boundary, kind, x, p) && SignalCost(d, p) == distance)
  }

  /** A signal path runs through a path of components that costs at least as much. */
  lemma {:induction false} SignalPathGivesDagPath(d: Design, components: Components, componentOf: map<Signal, int>,
                                                  dag: Dag, p: seq<Signal>) returns (cs: seq<int>)
    requires Ready(d, components, componentOf, dag) && IsPath(d.graph, p) && p[0] in componentOf
    ensures p[|p| - 1] in componentOf
    ensures IsDagPath(dag, cs) && First(cs) == componentOf[p[0]] && Last(cs) == componentOf[p[|p| - 1]]
    ensures SignalCost(d, p) <= PathCost(CostOf(d, components), cs)
    decreases |p|
  {
    hide Weighted, GoodComponents, Hop, CostOf, NodesOf;
    if |p| == 1 {
      cs := [componentOf[p[0]]];
    } else {
      var q, a, b := p[..|p| - 1], p[|p| - 2], p[|p| - 1];
      PrefixIsPath(d.graph, p);
      EdgeEndsAreNodes(d.graph, a, b);
      cs := SignalPathGivesDagPath(d, components, componentOf, dag, q);
      HopIsPaid(d, components, componentOf, dag, a, b);
      if componentOf[a] != componentOf[b] {
        PathSnoc(dag, cs, componentOf[b]);
        PathCostSnoc(CostOf(d, components), cs, componentOf[b]);
        cs := cs + [componentOf[b]];
      }
    }
  }

  /** A path of components carries a signal path between any two signals of its ends that costs at least as much. */
  lemma {:induction false} DagPathGivesSignalPath(d: Design, components: Components, componentOf: map<Signal, int>,
                                                  dag: Dag, cs: seq<int>, x: Signal, y: Signal) returns (p: seq<Signal>)
    requires Ready(d, components, componentOf, dag)
    requires IsDagPath(dag, cs) && x in componentOf && y in componentOf
    requires First(cs) == componentOf[x] && Last(cs) == componentOf[y]
    ensures PathFromTo(d.graph, p, x, y)
    ensures SignalCost(d, p) >= PathCost(CostOf(d, components), cs)
    decreases |cs|
  {
    hide Hop, CostOf, NodesOf, Weighted, Condensed, Reach;
    IndexedFacts(d.graph, components, componentOf, dag);
    if |cs| == 1 {
      assert Strong(d.graph, components[componentOf[x]]) && Reach(d.graph, x, y);
      p := ReachedBy(d.graph, x, y);
      SignalCostNonNegative(d, p);
    } else {
      PathTail(dag, cs);
      var a, b := SomeHopAttains(d, components, componentOf, dag, cs[0], cs[1]);
      var rest := DagPathGivesSignalPath(d, components, componentOf, dag, cs[1..], b, y);
      assert Strong(d.graph, components[componentOf[x]]) && Reach(d.graph, x, a);
      p := OverEdge(d, x, a, b, rest);
    }
  }

  lemma ReachedBy(g: Graph, x: Signal, y: Signal) returns (p: seq<Signal>)
    requires Reach(g, x, y)
    ensures PathFromTo(g, p, x, y)
  {
    p :| PathFromTo(g, p, x, y);
  }

  /** Reaching an edge and then following a path from its end costs at least the edge and the path. */
  lemma OverEdge(d: Design, x: Signal, a: Signal, b: Signal, rest: seq<Signal>) returns (p: seq<Signal>)
    requires Weighted(d)
    requires Reach(d.graph, x, a) && Edge(d.graph, a, b) && IsPath(d.graph, rest) && rest[0] == b
    ensures PathFromTo(d.graph, p, x, rest[|rest| - 1])
    ensures SignalCost(d, p) >=
            Hop(d, a, b) + SignalCost(d, rest)
  {
    hide Hop, Weighted;
    var q := ReachedBy(d.graph, x, a);
    SignalCostNonNegative(d, q);
    assert PathFromTo(d.graph, [a, b], a, b);
    JoinPaths(d.graph, q, [a, b]);
    var qb := q + [a, b][1..];
    assert qb == q + [b] && qb[..|qb| - 1] == q;
    JoinPaths(d.graph, qb, rest);
    SignalCostConcat(d, qb, rest);
    p := qb + rest[1..];
  }

  lemma IndexedFacts(g: Graph, components: Components, componentOf: map<Signal, int>, dag: Dag)
    requires Condensed(g, components, componentOf, dag)
    ensures Indexed(components, componentOf) && Descending(|components|, dag)
  {
  }

  /** No edge leaves a component exactly when everything its signals reach reaches them. */
  lemma SinkEndsPaths(d: Design, components: Components, componentOf: map<Signal, int>, dag: Dag, y: Signal)
    requires Ready(d, components, componentOf, dag) && y in componentOf
    ensures Next(dag, componentOf[y]) == {} <==> forall z :: Reach(d.graph, y, z) ==> Reach(d.graph, z, y)
  {
    hide Weighted, NodesOf, Reach;
    var c := componentOf[y];
    if Next(dag, c) == {} {
      forall z | Reach(d.graph, y, z)
        ensures Reach(d.graph, z, y)
      {
        var p := ReachedBy(d.graph, y, z);
        var cs := SignalPathGivesDagPath(d, components, componentOf, dag, p);
        if |cs| > 1 {
          PathTail(dag, cs);
        }
        assert Strong(d.graph, components[c]);
      }
    } else {
      var v := SomeMember(Next(dag, c));
      var a, b := SomeHopAttains(d, components, componentOf, dag, c, v);
      assert Strong(d.graph, components[c]) && Reach(d.graph, y, a);
      ReachStep(d.graph, y, a, b);
      if Reach(d.graph, b, y) {
        ReachGoesEarlier(d.graph, components, v, c, b, y);
      }
    }
  }

  /** A component is a terminal of a kind exactly when one of its signals ends paths of the kind. */
  lemma TerminalIffEnd(d: Design, boundary: Boundary, components: Components, componentOf: map<Signal, int>, dag: Dag,
                       kind: EP.EndpointKind, c: int)
    requires Ready(d, components, componentOf, dag) && 0 <= c < |components|
    ensures c in EP.TerminalsOf(|components|, KindsOf(boundary, components, dag), kind) <==>
            exists y :: y in components[c] && EndsPaths(d.graph, boundary, kind, y)
  {
    hide Reach, Weighted, NodesOf;
    if kind == EP.CombinationalSink {
      assert Strong(d.graph, components[c]);
      forall y | y in components[c]
        ensures EndsPaths(d.graph, boundary, kind, y) <==> Next(dag, c) == {}
      {
        MemberIsIndexed(components, componentOf, c, y);
        SinkEndsPaths(d, components, componentOf, dag, y);
      }
      assert components[c][0] in components[c];
      assert kind in KindsOf(boundary, components, dag)(c) <==> Next(dag, c) == {};
    } else {
      assert Touches(components[c], Marked(boundary, kind)) <==> kind in KindsOf(boundary, components, dag)(c);
    }
  }

  /** No path from `x` to an endpoint costs more than the distance recorded for its component. */
  lemma EndIsBounded(d: Design, boundary: Boundary, components: Components, componentOf: map<Signal, int>, dag: Dag,
                     kind: EP.EndpointKind, table: map<int, int>, next: map<int, int>, x: Signal, p: seq<Signal>)
    requires Ready(d, components, componentOf, dag) && x in componentOf
    requires EP.Farthest(dag, CostOf(d, components),
                         EP.TerminalsOf(|components|, KindsOf(boundary, components, dag), kind), table, next,
                         componentOf[x])
    requires LeadsToEnd(d, boundary, kind, x, p)
    ensures 0 <= SignalCost(d, p) <= table[componentOf[x]]
  {
    hide EndsPaths, KindsOf, EP.TerminalsOf, CostOf, GoodComponents, Weighted, NodesOf;
    var y := p[|p| - 1];
    SignalCostNonNegative(d, p);
    var cs := SignalPathGivesDagPath(d, components, componentOf, dag, p);
    TerminalIffEnd(d, boundary, components, componentOf, dag, kind, componentOf[y]);
    assert y in components[componentOf[y]];
  }

  /** A recorded distance other than -1 is the cost of a signal path to an endpoint. */
  lemma EndIsAttained(d: Design, boundary: Boundary, components: Components, componentOf: map<Signal, int>, dag: Dag,
                      kind: EP.EndpointKind, table: map<int, int>, next: map<int, int>, x: Signal)
    returns (p: seq<Signal>)
    requires Ready(d, components, componentOf, dag) && x in componentOf
    requires EP.Farthest(dag, CostOf(d, components),
                         EP.TerminalsOf(|components|, KindsOf(boundary, components, dag), kind), table, next,
                         componentOf[x])
    requires table[componentOf[x]] != -1
    ensures LeadsToEnd(d, boundary, kind, x, p)
    ensures SignalCost(d, p) == table[componentOf[x]]
  {
    hide EndsPaths, KindsOf, EP.TerminalsOf, CostOf, Condensed, Weighted, NodesOf;
    var walk := EP.Walk(next, componentOf[x]);
    IndexedFacts(d.graph, components, componentOf, dag);
    TerminalInRange(|components|, KindsOf(boundary, components, dag), kind, Last(walk));
    TerminalIffEnd(d, boundary, components, componentOf, dag, kind, Last(walk));
    var y :| y in components[Last(walk)] && EndsPaths(d.graph, boundary, kind, y);
    MemberIsIndexed(components, componentOf, Last(walk), y);
    p := DagPathGivesSignalPath(d, components, componentOf, dag, walk, x, y);
    EndIsBounded(d, boundary, components, componentOf, dag, kind, table, next, x, p);
  }

  /** The distance recorded for a signal and a kind is the maximum over signal paths. */
  lemma ReportedDistanceIsFarthestEnd(d: Design, boundary: Boundary, components: Components,
      componentOf: map<Signal, int>, dag: Dag, kind: EP.EndpointKind, table: map<int, int>, next: map<int, int>,
      x: Signal)
    requires Ready(d, components, componentOf, dag) && x in componentOf
    requires EP.Farthest(dag, CostOf(d, components),
                         EP.TerminalsOf(|components|, KindsOf(boundary, components, dag), kind), table, next,
                         componentOf[x])
    ensures IsDistanceTo(d, boundary, kind, x, table[componentOf[x]])
  {
    hide Ready, LeadsToEnd;
    forall p | LeadsToEnd(d, boundary, kind, x, p)
      ensures 0 <= SignalCost(d, p) <= table[componentOf[x]]
    {
      EndIsBounded(d, boundary, components, componentOf, dag, kind, table, next, x, p);
    }
    if table[componentOf[x]] != -1 {
      var p := EndIsAttained(d, boundary, components, componentOf, dag, kind, table, next, x);
    }
  }

  /** In particular -1 says exactly that no endpoint of the kind can be reached. */
  lemma MissingEndpointIsUnreachable(d: Design, boundary: Boundary, kind: EP.EndpointKind, x: Signal, distance: int)
    requires IsDistanceTo(d, boundary, kind, x, distance)
    ensures distance == -1 <==> forall y :: EndsPaths(d.graph, boundary, kind, y) ==> !Reach(d.graph, x, y)
  {
    hide EndsPaths, LeadsToEnd, Reach;
    if distance == -1 {
      forall y | EndsPaths(d.graph, boundary, kind, y)
        ensures !Reach(d.graph, x, y)
      {
        ReachLeadsToEnd(d, boundary, kind, x, y);
      }
    } else {
      var p :| LeadsToEnd(d, boundary, kind, x, p) && SignalCost(d, p) == distance;
      EndIsReached(d, boundary, kind, x, p);
    }
  }

  lemma ReachLeadsToEnd(d: Design, boundary: Boundary, kind: EP.EndpointKind, x: Signal, y: Signal)
    requires EndsPaths(d.graph, boundary, kind, y)
    ensures Reach(d.graph, x, y) ==> exists p :: LeadsToEnd(d, boundary, kind, x, p)
  {
    hide EndsPaths;
    if Reach(d.graph, x, y) {
      var p := ReachedBy(d.graph, x, y);
      assert LeadsToEnd(d, boundary, kind, x, p);
    }
  }

  lemma EndIsReached(d: Design, boundary: Boundary, kind: EP.EndpointKind, x: Signal, p: seq<Signal>)
    requires LeadsToEnd(d, boundary, kind, x, p)
    ensures p != [] && EndsPaths(d.graph, boundary, kind, p[|p| - 1]) && Reach(d.graph, x, p[|p| - 1])
  {
    hide EndsPaths;
    assert PathFromTo(d.graph, p, x, p[|p| - 1]);
  }

  lemma TerminalInRange(n: nat, kinds: EP.Kinds, kind: EP.EndpointKind, c: int)
    requires c in EP.TerminalsOf(n, kinds, kind)
    ensures 0 <= c < n
  {
  }

  lemma WeightsAreNonNegative(d: Design)
    requires Weighted(d)
    ensures forall e <- d.weights :: d.weights[e] >= 0
  {
  }

  /** Every recorded distance of every known signal means what it should. */
  ghost predicate AllDistances(d: Design, componentOf: map<Signal, int>, boundary: Boundary, endDepth: EP.Tables)
  {
    forall kind: EP.EndpointKind, x :: x in componentOf ==>
      && kind in endDepth && componentOf[x] in endDepth[kind]
      && IsDistanceTo(d, boundary, kind, x, endDepth[kind][componentOf[x]])
  }

  lemma DistancesAreReported(d: Design, boundary: Boundary, components: Components, componentOf: map<Signal, int>,
                             dag: Dag, endDepth: EP.Tables, endNext: EP.Tables)
    requires Ready(d, components, componentOf, dag)
    requires EP.AllFarthest(|components|, dag, CostOf(d, components), KindsOf(boundary, components, dag), endDepth,
                            endNext)
    ensures AllDistances(d, componentOf, boundary, endDepth)
  {
    hide Ready, IsDistanceTo, EP.TerminalsOf, EP.Farthest, EP.AllFarthest, CostOf, KindsOf;
    forall kind: EP.EndpointKind, x | x in componentOf
      ensures kind in endDepth && componentOf[x] in endDepth[kind]
      ensures IsDistanceTo(d, boundary, kind, x, endDepth[kind][componentOf[x]])
    {
      NumberInRange(d, components, componentOf, dag, x);
      FarthestOfKind(|components|, dag, CostOf(d, components), KindsOf(boundary, components, dag), endDepth, endNext,
                     kind, componentOf[x]);
      ReportedDistanceIsFarthestEnd(d, boundary, components, componentOf, dag, kind, endDepth[kind], endNext[kind], x);
    }
  }

  lemma NumberInRange(d: Design, components: Components, componentOf: map<Signal, int>, dag: Dag, x: Signal)
    requires Ready(d, components, componentOf, dag) && x in componentOf
    ensures 0 <= componentOf[x] < |components|
  {
  }

  lemma FarthestOfKind(n: nat, dag: Dag, cost: Cost, kinds: EP.Kinds, depth: EP.Tables, next: EP.Tables,
                       kind: EP.EndpointKind, c: int)
    requires EP.AllFarthest(n, dag, cost, kinds, depth, next) && 0 <= c < n
    ensures kind in depth && kind in next && c in depth[kind]
    ensures EP.Farthest(dag, cost, EP.TerminalsOf(n, kinds, kind), depth[kind], next[kind], c)
  {
    assert EP.TablesFarthest(n, dag, cost, kinds, depth, next, kind, c);
  }

  lemma AnalysedIsReady(d: Design, components: Components, componentOf: map<Signal, int>, dag: Dag,
                        depth: map<int, int>, parent: map<int, int>)
    requires Analysed(d, components, componentOf, dag, depth, parent)
    ensures Ready(d, components, componentOf, dag)
  {
  }

  /** Component search, condensation, ordering, depths and endpoint distances, one after the other. */
  method Analyse(d: Design, boundary: Boundary)
    returns (components: Components, componentOf: map<Signal, int>, dag: Dag, depth: map<int, int>,
             parent: map<int, int>, endDepth: EP.Tables, endNext: EP.Tables, variableDepth: map<Signal, int>)
    requires Weighted(d)
    ensures Analysed(d, components, componentOf, dag, depth, parent)
    ensures variableDepth.Keys == NodesOf(d.graph)
    ensures forall x <- variableDepth :: IsDepthOf(d, x, variableDepth[x])
    ensures EP.AllFarthest(|components|, dag, CostOf(d, components), KindsOf(boundary, components, dag),
                           endDepth, endNext)
    ensures AllDistances(d, componentOf, boundary, endDepth)
  {
    hide LP.Deepest, EP.AllFarthest, IsDepthOf, AllDistances, LP.IndegreeOk, LP.Topological, Weighted, KindsOf, CostOf,
         NodesOf, GoodComponents;
    WeightsAreNonNegative(d);
    components := Tarjan.Components(d.graph);
    componentOf := IndexComponents(components);
    var indegree;
    dag, indegree := Condense(d.graph, components, componentOf);
    var order;
    CostIsNonNegative(d, components);
    order, depth, parent := LP.Kahn(|components|, dag, indegree, CostOf(d, components));
    endDepth, endNext := EP.EndpointDepths(|components|, dag, order, CostOf(d, components),
                                           KindsOf(boundary, components, dag));
    AllReported(d, components, componentOf, dag, depth, parent);
    AnalysedIsReady(d, components, componentOf, dag, depth, parent);
    DistancesAreReported(d, boundary, components, componentOf, dag, endDepth, endNext);
    variableDepth := map x | x in componentOf :: depth[componentOf[x]];
  }
}
