/** The best path between two classes of signals, in terms of signal paths. */
module SignalPairs {
  import opened Collections
  import opened Condensation
  import opened Dags
  import opened Digraphs
  import opened EndpointPairs
  import opened SignalDepths
  import opened SignalEndpoints

  /** A signal path from one of `sources` to one of `targets`. */
  ghost predicate Links(g: Graph, sources: seq<Signal>, targets: seq<Signal>, p: seq<Signal>) {
    IsPath(g, p) && p[0] in sources && p[|p| - 1] in targets
  }

  /** The result names a source and a target between which some signal path costs the reported depth, and no signal path
      from a source to a target costs more. */
  ghost predicate IsBestLink(d: Design, sources: seq<Signal>, targets: seq<Signal>, best: BestPath) {
    && best.source in sources && best.destination in targets
    && (exists p :: PathFromTo(d.graph, p, best.source, best.destination) &&
                    SignalCost(d, p) == best.depth)
    && (forall p :: Links(d.graph, sources, targets, p) ==> SignalCost(d, p) <= best.depth)
  }

  method BestSignalPath(d: Design, components: Components, componentOf: map<Signal, int>, dag: Dag, order: seq<int>,
                        sources: seq<Signal>, targets: seq<Signal>) returns (r: Option<BestPath>)
    requires Ready(d, components, componentOf, dag) && LP.Topological(|components|, dag, order)
    requires forall s <- sources + targets :: s in componentOf
    ensures r.None? <==> forall p :: !Links(d.graph, sources, targets, p)
    ensures r.Some? ==> IsBestLink(d, sources, targets, r.value)
  {
    hide Ready, LP.Topological, CostOf, Links, Connects, Starts, IsBestLink;
    ReadyFacts(d, components, componentOf, dag);
    assert forall s <- sources :: s in sources + targets;
    assert forall t <- targets :: t in sources + targets;
    r := BestEndpointPath(|components|, dag, order, CostOf(d, components), sources, targets, componentOf);
    forall p | Links(d.graph, sources, targets, p)
      ensures r.Some? && SignalCost(d, p) <= r.value.depth
    {
      var cs := LinkConnects(d, components, componentOf, dag, sources, targets, p);
    }
    if r.Some? {
      var p := ConnectionLinks(d, components, componentOf, dag, sources, targets, r.value);
    }
  }

  lemma ReadyFacts(d: Design, components: Components, componentOf: map<Signal, int>, dag: Dag)
    requires Ready(d, components, componentOf, dag)
    ensures Descending(|components|, dag) && NonNegative(CostOf(d, components))
    ensures forall x <- componentOf :: 0 <= componentOf[x] < |components|
  {
    CostIsNonNegative(d, components);
  }

  lemma LinkConnects(d: Design, components: Components, componentOf: map<Signal, int>, dag: Dag, sources: seq<Signal>,
                     targets: seq<Signal>, p: seq<Signal>) returns (cs: seq<int>)
    requires Ready(d, components, componentOf, dag) && Links(d.graph, sources, targets, p)
    requires (forall s <- sources :: s in componentOf) && (forall t <- targets :: t in componentOf)
    ensures Connects(dag, sources, componentOf, Starts(targets, componentOf), cs)
    ensures SignalCost(d, p) <= PathCost(CostOf(d, components), cs)
  {
    hide Ready, CostOf;
    cs := SignalPathGivesDagPath(d, components, componentOf, dag, p);
  }

  lemma ConnectionLinks(d: Design, components: Components, componentOf: map<Signal, int>, dag: Dag,
                        sources: seq<Signal>, targets: seq<Signal>, best: BestPath) returns (p: seq<Signal>)
    requires Ready(d, components, componentOf, dag)
    requires (forall s <- sources :: s in componentOf) && (forall t <- targets :: t in componentOf)
    requires best.source in sources && best.destination in targets && IsDagPath(dag, best.path)
    requires First(best.path) == componentOf[best.source] && Last(best.path) == componentOf[best.destination]
    requires PathCost(CostOf(d, components), best.path) == best.depth
    requires forall q :: Links(d.graph, sources, targets, q) ==> SignalCost(d, q) <= best.depth
    ensures IsBestLink(d, sources, targets, best) && Links(d.graph, sources, targets, p)
  {
    hide Ready, CostOf;
    p := DagPathGivesSignalPath(d, components, componentOf, dag, best.path, best.source, best.destination);
    assert Links(d.graph, sources, targets, p);
  }
}
