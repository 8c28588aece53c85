/** Numbered acyclic graphs with edge costs: the condensation of a signal graph. */
module Dags {

  type Dag = map<int, set<int>>

  type Cost = (int, int) -> int

  function Next(dag: Dag, u: int): set<int> {
    if u in dag then dag[u] else {}
  }

  /** Every edge leads from a higher number to a lower one. */
  ghost predicate Descending(n: nat, dag: Dag) {
    forall u, v :: v in Next(dag, u) ==> 0 <= v < u < n
  }

  ghost predicate NonNegative(cost: Cost) {
    forall u, v :: cost(u, v) >= 0
  }

  ghost predicate IsDagPath(dag: Dag, p: seq<int>) {
    && p != []
    && forall i, j :: 0 <= i < j < |p| && j == i + 1 ==> p[j] in Next(dag, p[i])
  }

  ghost function First(p: seq<int>): int
    requires p != []
  {
    p[0]
  }

  ghost function Last(p: seq<int>): int
    requires p != []
  {
    p[|p| - 1]
  }

  ghost function PathCost(cost: Cost, p: seq<int>): int {
    if |p| < 2 then 0 else cost(p[0], p[1]) + PathCost(cost, p[1..])
  }

  lemma {:induction false} PathCostSnoc(cost: Cost, p: seq<int>, v: int)
    requires p != []
    ensures PathCost(cost, p + [v]) == PathCost(cost, p) + cost(Last(p), v)
  {
    var q := p + [v];
    if |p| == 1 {
      assert q[1..] == [v];
    } else {
      assert q[1..] == p[1..] + [v];
      PathCostSnoc(cost, p[1..], v);
    }
  }

  lemma PathSnoc(dag: Dag, p: seq<int>, v: int)
    requires IsDagPath(dag, p) && v in Next(dag, Last(p))
    ensures IsDagPath(dag, p + [v])
  {
  }

  lemma PathFront(dag: Dag, p: seq<int>)
    requires IsDagPath(dag, p) && |p| > 1
    ensures IsDagPath(dag, p[..|p| - 1]) && Last(p) in Next(dag, Last(p[..|p| - 1]))
    ensures p == p[..|p| - 1] + [Last(p)]
  {
  }

  lemma PathTail(dag: Dag, p: seq<int>)
    requires IsDagPath(dag, p) && |p| > 1
    ensures IsDagPath(dag, p[1..]) && p[1] in Next(dag, p[0])
    ensures First(p[1..]) == p[1] && Last(p[1..]) == Last(p)
  {
    var q := p[1..];
    forall i, j | 0 <= i < j < |q| && j == i + 1
      ensures q[j] in Next(dag, q[i])
    {
      assert p[j + 1] in Next(dag, p[i + 1]);
    }
  }

  lemma PathCons(dag: Dag, u: int, p: seq<int>)
    requires IsDagPath(dag, p) && First(p) in Next(dag, u)
    ensures IsDagPath(dag, [u] + p) && First([u] + p) == u && Last([u] + p) == Last(p)
  {
    var q := [u] + p;
    forall i, j | 0 <= i < j < |q| && j == i + 1
      ensures q[j] in Next(dag, q[i])
    {
      if i > 0 {
        assert p[j - 1] in Next(dag, p[i - 1]);
      }
    }
  }
}
