/** Shrinking each component to a number: the acyclic graph on which path depths are computed. */
module Condensation {
  import opened Dags
  import opened Digraphs
  import LP = LongestPaths
  import opened Tarjan

  type Components = seq<seq<Signal>>

  /** Some edge of the signal graph leads from component `u` to a different component `v`. */
  ghost predicate Crosses(g: Graph, componentOf: map<Signal, int>, u: int, v: int) {
    exists a, b :: EdgeBetween(g, componentOf, u, v, a, b)
  }

  ghost predicate EdgeBetween(g: Graph, componentOf: map<Signal, int>, u: int, v: int, a: Signal, b: Signal) {
    && Edge(g, a, b) && u != v
    && a in componentOf && componentOf[a] == u
    && b in componentOf && componentOf[b] == v
  }

  ghost predicate Indexed(components: Components, componentOf: map<Signal, int>) {
    && (forall x :: x in componentOf <==> Emitted(components, x))
    && (forall x <- componentOf :: 0 <= componentOf[x] < |components| && x in components[componentOf[x]])
  }

  /** `dag` has exactly one edge for each pair of components that some signal edge crosses. */
  ghost predicate Condensed(g: Graph, components: Components, componentOf: map<Signal, int>, dag: Dag) {
    && Indexed(components, componentOf)
    && (forall u, v :: v in Next(dag, u) <==> Crosses(g, componentOf, u, v))
    && Descending(|components|, dag)
  }

  method IndexComponents(components: Components) returns (componentOf: map<Signal, int>)
    ensures Indexed(components, componentOf)
  {
    componentOf := map[];
    for number := 0 to |components|
      invariant forall x <- componentOf :: 0 <= componentOf[x] < number && x in components[componentOf[x]]
      invariant forall i, x :: 0 <= i < number && x in components[i] ==> x in componentOf
    {
      var component := components[number];
      for k := 0 to |component|
        invariant forall x <- componentOf :: 0 <= componentOf[x] <= number && x in components[componentOf[x]]
        invariant forall i, x :: 0 <= i < number && x in components[i] ==> x in componentOf
        invariant forall j :: 0 <= j < k ==> component[j] in componentOf
      {
        componentOf := componentOf[component[k] := number];
      }
    }
  }

  function WithEdge(dag: Dag, u: int, v: int): (dag': Dag)
    ensures forall x, y :: y in Next(dag', x) <==> y in Next(dag, x) || (x == u && y == v)
  {
    dag[u := Next(dag, u) + {v}]
  }

  lemma AddDagEdge(n: nat, dag: Dag, indegree: map<int, int>, u: int, v: int)
    requires LP.IndegreeOk(n, dag, {}, indegree) && Descending(n, dag)
    requires 0 <= v < u < n && v !in Next(dag, u)
    ensures LP.IndegreeOk(n, WithEdge(dag, u, v), {}, indegree[v := LP.Count(indegree, v) + 1])
    ensures Descending(n, WithEdge(dag, u, v))
  {
    hide WithEdge, Next;
    var dag', indegree' := WithEdge(dag, u, v), indegree[v := LP.Count(indegree, v) + 1];
    forall w | 0 <= w < n
      ensures LP.Count(indegree', w) == |LP.Pending(n, dag', {}, w)|
    {
      var before := LP.Pending(n, dag, {}, w);
      if w == v {
        assert LP.Pending(n, dag', {}, w) == before + {u};
      } else {
        assert LP.Pending(n, dag', {}, w) == before;
      }
    }
  }

  lemma CrossingDescends(g: Graph, components: Components, componentOf: map<Signal, int>, a: Signal, b: Signal)
    requires GoodComponents(g, components) && Indexed(components, componentOf)
    requires a in componentOf && b in componentOf && Edge(g, a, b)
    ensures 0 <= componentOf[b] <= componentOf[a] < |components|
  {
    ReachEdge(g, a, b);
    ReachGoesEarlier(g, components, componentOf[a], componentOf[b], a, b);
  }

  ghost predicate DagSound(g: Graph, componentOf: map<Signal, int>, dag: Dag) {
    forall u, v :: v in Next(dag, u) ==> Crosses(g, componentOf, u, v)
  }

  /** The edges of `a` to the targets outside `todo` are all represented. */
  ghost predicate Represents(g: Graph, componentOf: map<Signal, int>, dag: Dag, a: Signal, todo: set<Signal>)
    requires forall x <- NodesOf(g) :: x in componentOf
  {
    forall b :: Edge(g, a, b) && b !in todo && a in NodesOf(g) && b in NodesOf(g) &&
                componentOf[a] != componentOf[b] ==>
      componentOf[b] in Next(dag, componentOf[a])
  }

  method Condense(g: Graph, components: Components, componentOf: map<Signal, int>)
    returns (dag: Dag, indegree: map<int, int>)
    requires GoodComponents(g, components) && Indexed(components, componentOf)
    requires forall x <- NodesOf(g) :: x in componentOf
    ensures Condensed(g, components, componentOf, dag)
    ensures LP.IndegreeOk(|components|, dag, {}, indegree)
  {
    hide GoodComponents, Indexed, DagSound, Descending, LP.IndegreeOk, Represents, Condensed;
    dag, indegree := map[], map[];
    EmptyDag(g, |components|, componentOf);
    var sources := g.Keys;
    while sources != {}
      invariant sources <= g.Keys
      invariant DagSound(g, componentOf, dag) && Descending(|components|, dag)
      invariant LP.IndegreeOk(|components|, dag, {}, indegree)
      invariant forall a <- g.Keys :: a !in sources ==> Represents(g, componentOf, dag, a, {})
      decreases sources
    {
      var source :| source in sources;
      sources := sources - {source};
      ghost var before := dag;
      dag, indegree := CondenseSource(g, components, componentOf, source, dag, indegree);
      RepresentsGrows(g, componentOf, before, dag);
    }
    AllRepresented(g, components, componentOf, dag);
  }

  lemma RepresentsGrows(g: Graph, componentOf: map<Signal, int>, dag0: Dag, dag: Dag)
    requires forall x <- NodesOf(g) :: x in componentOf
    requires forall u, v :: v in Next(dag0, u) ==> v in Next(dag, u)
    ensures forall a <- g.Keys :: Represents(g, componentOf, dag0, a, {}) ==> Represents(g, componentOf, dag, a, {})
  {
  }

  lemma AllRepresented(g: Graph, components: Components, componentOf: map<Signal, int>, dag: Dag)
    requires Indexed(components, componentOf) && forall x <- NodesOf(g) :: x in componentOf
    requires DagSound(g, componentOf, dag) && Descending(|components|, dag)
    requires forall a <- g.Keys :: Represents(g, componentOf, dag, a, {})
    ensures Condensed(g, components, componentOf, dag)
  {
    hide Indexed, Descending;
    forall u, v | Crosses(g, componentOf, u, v)
      ensures v in Next(dag, u)
    {
      var a, b :| EdgeBetween(g, componentOf, u, v, a, b);
      ReachEdge(g, a, b);
      assert Represents(g, componentOf, dag, a, {});
    }
  }

  lemma EmptyDag(g: Graph, n: nat, componentOf: map<Signal, int>)
    ensures LP.IndegreeOk(n, map[], {}, map[])
    ensures DagSound(g, componentOf, map[]) && Descending(n, map[])
  {
    forall v | 0 <= v < n
      ensures LP.Pending(n, map[], {}, v) == {}
    {
    }
  }

  lemma NowCrosses(g: Graph, componentOf: map<Signal, int>, u: int, v: int, a: Signal, b: Signal)
    requires EdgeBetween(g, componentOf, u, v, a, b)
    ensures Crosses(g, componentOf, u, v)
  {
  }

  method CondenseSource(g: Graph, components: Components, componentOf: map<Signal, int>, source: Signal,
                        dag0: Dag, indegree0: map<int, int>) returns (dag: Dag, indegree: map<int, int>)
    requires GoodComponents(g, components) && Indexed(components, componentOf)
    requires forall x <- NodesOf(g) :: x in componentOf
    requires source in g
    requires DagSound(g, componentOf, dag0) && Descending(|components|, dag0)
    requires LP.IndegreeOk(|components|, dag0, {}, indegree0)
    ensures DagSound(g, componentOf, dag) && Descending(|components|, dag)
    ensures LP.IndegreeOk(|components|, dag, {}, indegree)
    ensures forall u, v :: v in Next(dag0, u) ==> v in Next(dag, u)
    ensures Represents(g, componentOf, dag, source, {})
  {
    hide LP.IndegreeOk, GoodComponents, Indexed, Crosses, WithEdge;
    dag, indegree := dag0, indegree0;
    var todo := g[source];
    while todo != {}
      invariant todo <= g[source]
      invariant DagSound(g, componentOf, dag) && Descending(|components|, dag)
      invariant LP.IndegreeOk(|components|, dag, {}, indegree)
      invariant forall u, v :: v in Next(dag0, u) ==> v in Next(dag, u)
      invariant Represents(g, componentOf, dag, source, todo)
      decreases todo
    {
      var target :| target in todo;
      todo := todo - {target};
      assert Edge(g, source, target);
      ReachEdge(g, source, target);
      var left, right := componentOf[source], componentOf[target];
      CrossingDescends(g, components, componentOf, source, target);
      if left != right && right !in Next(dag, left) {
        AddDagEdge(|components|, dag, indegree, left, right);
        NowCrosses(g, componentOf, left, right, source, target);
        dag := WithEdge(dag, left, right);
        indegree := indegree[right := LP.Count(indegree, right) + 1];
      }
    }
  }
}
