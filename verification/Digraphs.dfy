/** Directed graphs as the analyser stores them: a dictionary from a signal to the set of its
    successors.  A successor need not be a key of the dictionary. */
module Digraphs {

  datatype Signal = Signal(name: string)

  type Graph = map<Signal, set<Signal>>

  type Weights = map<(Signal, Signal), int>

  function Successors(g: Graph, a: Signal): set<Signal> {
    if a in g then g[a] else {}
  }

  ghost predicate Edge(g: Graph, a: Signal, b: Signal) {
    b in Successors(g, a)
  }

  /** Every signal the dictionary mentions, as a key or as a successor. */
  ghost function NodesOf(g: Graph): set<Signal> {
    g.Keys + set a, b | a in g && b in g[a] :: b
  }

  ghost predicate IsPath(g: Graph, p: seq<Signal>) {
    && p != []
    && forall i, j :: 0 <= i < j < |p| && j == i + 1 ==> Edge(g, p[i], p[j])
  }

  ghost predicate PathFromTo(g: Graph, p: seq<Signal>, a: Signal, b: Signal) {
    IsPath(g, p) && p[0] == a && p[|p| - 1] == b
  }

  ghost predicate Reach(g: Graph, a: Signal, b: Signal) {
    exists p :: PathFromTo(g, p, a, b)
  }

  ghost predicate MutualReach(g: Graph, a: Signal, b: Signal) {
    Reach(g, a, b) && Reach(g, b, a)
  }

  lemma ReachSelf(g: Graph, a: Signal)
    ensures Reach(g, a, a)
  {
    assert PathFromTo(g, [a], a, a);
  }

  lemma ReachEdge(g: Graph, a: Signal, b: Signal)
    requires Edge(g, a, b)
    ensures Reach(g, a, b) && b in NodesOf(g)
  {
    assert PathFromTo(g, [a, b], a, b);
  }

  lemma ReachTrans(g: Graph, a: Signal, b: Signal, c: Signal)
    requires Reach(g, a, b) && Reach(g, b, c)
    ensures Reach(g, a, c)
  {
    var p :| PathFromTo(g, p, a, b);
    var q :| PathFromTo(g, q, b, c);
    var r := p + q[1..];
    forall i, j | 0 <= i < j < |r| && j == i + 1
      ensures Edge(g, r[i], r[j])
    {
      if j < |p| {
        assert Edge(g, p[i], p[j]);
      } else {
        assert Edge(g, q[i - |p| + 1], q[j - |p| + 1]);
      }
    }
    assert PathFromTo(g, r, a, c);
  }

  lemma ReachStep(g: Graph, a: Signal, b: Signal, c: Signal)
    requires Reach(g, a, b) && Edge(g, b, c)
    ensures Reach(g, a, c)
  {
    ReachEdge(g, b, c);
    ReachTrans(g, a, b, c);
  }

  /** A path that starts inside a set closed under edges stays inside it. */
  lemma {:induction false} PathStaysInside(g: Graph, inside: iset<Signal>, p: seq<Signal>)
    requires IsPath(g, p) && p[0] in inside
    requires forall a, b :: a in inside && Edge(g, a, b) ==> b in inside
    ensures p[|p| - 1] in inside
    decreases |p|
  {
    if |p| > 1 {
      var q := p[1..];
      assert Edge(g, p[0], p[1]);
      forall i, j | 0 <= i < j < |q| && j == i + 1
        ensures Edge(g, q[i], q[j])
      {
        assert Edge(g, p[i + 1], p[j + 1]);
      }
      PathStaysInside(g, inside, q);
    }
  }
}
