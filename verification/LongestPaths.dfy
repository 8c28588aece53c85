/** Kahn's ordering of a numbered acyclic graph with longest-path relaxation and parent witnesses. */
module LongestPaths {
  import opened Collections
  import opened Dags

  function Count(counter: map<int, int>, v: int): int {
    if v in counter then counter[v] else 0
  }

  /** The table that gives every number below `n` the same value. */
  function Filled(n: nat, value: int): (table: map<int, int>)
    ensures forall v :: v in table <==> 0 <= v < n
    ensures forall v <- table :: table[v] == value
  {
    if n == 0 then map[] else Filled(n - 1, value)[n - 1 := value]
  }

  /** The edges into `v` that have not been relaxed yet, given by their sources. */
  ghost function Pending(n: nat, dag: Dag, done: set<(int, int)>, v: int): set<int> {
    set u | 0 <= u < n && v in Next(dag, u) && (u, v) !in done
  }

  ghost predicate IndegreeOk(n: nat, dag: Dag, done: set<(int, int)>, indegree: map<int, int>) {
    forall v :: 0 <= v < n ==> Count(indegree, v) == |Pending(n, dag, done, v)|
  }

  /** `depth` satisfies every relaxed edge, and is justified edge by edge through `parent`. */
  ghost predicate Relaxed(n: nat, cost: Cost, done: set<(int, int)>, depth: map<int, int>, parent: map<int, int>) {
    && (forall v :: 0 <= v < n ==> v in depth && depth[v] >= 0)
    && (forall u, v :: (u, v) in done ==> 0 <= v < u < n && depth[u] + cost(u, v) <= depth[v])
    && (forall v :: v in parent ==>
          && (parent[v], v) in done && parent[v] in depth && v in depth
          && depth[v] == depth[parent[v]] + cost(parent[v], v))
    && (forall v :: 0 <= v < n && v !in parent ==> depth[v] == 0)
  }

  lemma RelaxEdge(n: nat, cost: Cost, done: set<(int, int)>, depth: map<int, int>, parent: map<int, int>,
                  u: int, v: int)
    requires NonNegative(cost)
    requires Relaxed(n, cost, done, depth, parent)
    requires 0 <= v < u < n
    requires forall w :: (v, w) !in done
    ensures u in depth && v in depth
    ensures var candidate := depth[u] + cost(u, v);
            if candidate > depth[v]
            then Relaxed(n, cost, done + {(u, v)}, depth[v := candidate], parent[v := u])
            else Relaxed(n, cost, done + {(u, v)}, depth, parent)
  {
  }

  lemma CountEdge(n: nat, dag: Dag, done: set<(int, int)>, indegree: map<int, int>, u: int, v: int)
    requires IndegreeOk(n, dag, done, indegree)
    requires 0 <= u < n && 0 <= v < n && v in Next(dag, u) && (u, v) !in done
    ensures Count(indegree, v) > 0
    ensures IndegreeOk(n, dag, done + {(u, v)}, indegree[v := Count(indegree, v) - 1])
  {
    var done' := done + {(u, v)};
    assert Pending(n, dag, done, v) == Pending(n, dag, done', v) + {u};
    forall w | 0 <= w < n && w != v
      ensures Pending(n, dag, done', w) == Pending(n, dag, done, w)
    {
    }
  }

  ghost predicate Before(order: seq<int>, i: int, u: int) {
    exists j :: 0 <= j < i && j < |order| && order[j] == u
  }

  /** Sources come before their targets. */
  ghost predicate SourcesFirst(dag: Dag, order: seq<int>) {
    forall i, u :: 0 <= i < |order| && order[i] in Next(dag, u) ==> Before(order, i, u)
  }

  /** `order` lists all of `0..n`, once each, sources before targets. */
  ghost predicate Topological(n: nat, dag: Dag, order: seq<int>) {
    && Distinct(order)
    && (forall v :: v in order <==> 0 <= v < n)
    && SourcesFirst(dag, order)
  }

  /** The state between two steps of the queue: everything queued or ordered has no pending source. */
  ghost predicate Ready(n: nat, order: seq<int>, queue: seq<int>, indegree: map<int, int>) {
    && Distinct(order + queue)
    && (forall v :: v in order || v in queue <==> 0 <= v < n && Count(indegree, v) == 0)
  }

  ghost predicate DoneIs(dag: Dag, order: seq<int>, done: set<(int, int)>) {
    forall u, v :: (u, v) in done <==> u in order && v in Next(dag, u)
  }

  /** The queue drains only when every number has been ordered: the largest number missing from the
      order would have no pending source. */
  lemma {:induction false} DrainedIsComplete(n: nat, dag: Dag, order: seq<int>, done: set<(int, int)>,
                                             indegree: map<int, int>, v: int)
    requires Descending(n, dag) && DoneIs(dag, order, done)
    requires IndegreeOk(n, dag, done, indegree) && Ready(n, order, [], indegree)
    requires 0 <= v < n
    ensures v in order
    decreases n - v
  {
    forall u | v < u < n
      ensures u in order
    {
      DrainedIsComplete(n, dag, order, done, indegree, u);
    }
    assert Pending(n, dag, done, v) == {};
  }

  lemma OrderSnoc(n: nat, dag: Dag, order: seq<int>, queue: seq<int>, done: set<(int, int)>,
                  indegree: map<int, int>)
    requires Descending(n, dag) && DoneIs(dag, order, done)
    requires IndegreeOk(n, dag, done, indegree) && Ready(n, order, queue, indegree)
    requires SourcesFirst(dag, order) && queue != []
    ensures SourcesFirst(dag, order + [queue[0]])
    ensures Ready(n, order + [queue[0]], queue[1..], indegree)
    ensures 0 <= queue[0] < n && queue[0] !in order
  {
    var x := queue[0];
    assert order + queue == order + [x] + queue[1..];
    assert x in queue;
    assert (order + queue)[|order|] == x;
    forall v
      ensures v in queue <==> v == x || v in queue[1..]
    {
      if v in queue {
        var i :| 0 <= i < |queue| && queue[i] == v;
        assert i > 0 ==> queue[1..][i - 1] == v;
      }
    }
    forall j | 0 <= j < |order|
      ensures order[j] != x
    {
      assert (order + queue)[j] != (order + queue)[|order|];
    }
    var order' := order + [x];
    forall i, u | 0 <= i < |order'| && order'[i] in Next(dag, u)
      ensures Before(order', i, u)
    {
      if i < |order| {
        assert Before(order, i, u);
        var j :| 0 <= j < i && j < |order| && order[j] == u;
        assert order'[j] == u;
      } else {
        assert Pending(n, dag, done, x) == {};
        assert u !in Pending(n, dag, done, x);
        assert u in order;
        var j :| 0 <= j < |order| && order[j] == u;
        assert order'[j] == u;
      }
    }
  }

  /** Counting one edge off keeps the queue exact. */
  lemma ReadyCountdown(n: nat, order: seq<int>, queue: seq<int>, indegree: map<int, int>, v: int)
    requires Ready(n, order, queue, indegree)
    requires 0 <= v < n && Count(indegree, v) > 0
    ensures v !in order
    ensures var indegree' := indegree[v := Count(indegree, v) - 1];
            Ready(n, order, if Count(indegree', v) == 0 then queue + [v] else queue, indegree')
  {
    assert order + (queue + [v]) == order + queue + [v];
    forall j | 0 <= j < |order + queue|
      ensures (order + queue)[j] != v
    {
      assert (order + queue)[j] in order || (order + queue)[j] in queue;
    }
  }

  ghost function Missing(n: nat, order: seq<int>): set<int> {
    set v | 0 <= v < n && v !in order
  }

  lemma StartIsReady(n: nat, dag: Dag, cost: Cost, queue: seq<int>, indegree: map<int, int>)
    requires forall v :: v in queue <==> 0 <= v < n && Count(indegree, v) == 0
    requires Distinct(queue)
    ensures Ready(n, [], queue, indegree) && SourcesFirst(dag, []) && Relaxed(n, cost, {}, Filled(n, 0), map[])
  {
    assert [] + queue == queue;
  }

  lemma DrainedIsTopological(n: nat, dag: Dag, order: seq<int>, done: set<(int, int)>, indegree: map<int, int>)
    requires Descending(n, dag) && DoneIs(dag, order, done) && SourcesFirst(dag, order)
    requires IndegreeOk(n, dag, done, indegree) && Ready(n, order, [], indegree)
    ensures Topological(n, dag, order)
  {
    forall v | 0 <= v < n
      ensures v in order
    {
      DrainedIsComplete(n, dag, order, done, indegree, v);
    }
    assert order + [] == order;
  }

  method Kahn(n: nat, dag: Dag, indegrees: map<int, int>, cost: Cost)
    returns (order: seq<int>, depth: map<int, int>, parent: map<int, int>)
    requires Descending(n, dag) && NonNegative(cost)
    requires IndegreeOk(n, dag, {}, indegrees)
    ensures Topological(n, dag, order)
    ensures Deepest(n, dag, cost, depth, parent)
  {
    hide Ready, IndegreeOk, Relaxed, SourcesFirst, Deepest;
    var indegree := indegrees;
    ghost var done: set<(int, int)> := {};
    var queue: seq<int> := [];
    for number := 0 to n
      invariant forall v :: v in queue <==> 0 <= v < number && Count(indegree, v) == 0
      invariant Distinct(queue)
    {
      if Count(indegree, number) == 0 {
        queue := queue + [number];
      }
    }
    depth := Filled(n, 0);
    parent := map[];
    order := [];
    StartIsReady(n, dag, cost, queue, indegree);

    while queue != []
      invariant DoneIs(dag, order, done)
      invariant Ready(n, order, queue, indegree)
      invariant SourcesFirst(dag, order)
      invariant IndegreeOk(n, dag, done, indegree)
      invariant Relaxed(n, cost, done, depth, parent)
      decreases Missing(n, order)
    {
      var current := queue[0];
      OrderSnoc(n, dag, order, queue, done, indegree);
      ghost var previous := order;
      assert current in Missing(n, order);
      queue := queue[1..];
      order := order + [current];
      assert current in order;

      var todo: set<int> := Next(dag, current);
      while todo != {}
        invariant todo <= Next(dag, current)
        invariant forall u, v :: (u, v) in done <==>
                    v in Next(dag, u) && (u in previous || (u == current && v !in todo))
        invariant Ready(n, order, queue, indegree)
        invariant IndegreeOk(n, dag, done, indegree)
        invariant Relaxed(n, cost, done, depth, parent)
        decreases todo
      {
        var target := Pick(todo);
        todo := todo - {target};
        CountEdge(n, dag, done, indegree, current, target);
        ReadyCountdown(n, order, queue, indegree, target);
        RelaxEdge(n, cost, done, depth, parent, current, target);
        var candidate := depth[current] + cost(current, target);
        if candidate > depth[target] {
          depth := depth[target := candidate];
          parent := parent[target := current];
        }
        indegree := indegree[target := Count(indegree, target) - 1];
        if Count(indegree, target) == 0 {
          queue := queue + [target];
        }
        done := done + {(current, target)};
      }
    }
    DrainedIsTopological(n, dag, order, done, indegree);
    RelaxedIsDeepest(n, dag, cost, done, depth, parent);
  }

  /** Every path into `v` costs at most `depth[v]`. */
  ghost predicate BoundsPaths(n: nat, dag: Dag, cost: Cost, depth: map<int, int>) {
    forall p :: IsDagPath(dag, p) && 0 <= Last(p) < n ==> Last(p) in depth && PathCost(cost, p) <= depth[Last(p)]
  }

  /** Following `parent` from `v` for as long as possible, then reading it backwards. */
  ghost function Chain(n: nat, parent: map<int, int>, v: int): seq<int>
    decreases n - v
  {
    if v in parent && v < parent[v] < n then Chain(n, parent, parent[v]) + [v] else [v]
  }

  /** The parent chain of `v` is a path of cost `depth[v]` that starts where no parent is recorded. */
  ghost predicate ChainAttains(n: nat, dag: Dag, cost: Cost, depth: map<int, int>, parent: map<int, int>, v: int) {
    && v in depth
    && IsDagPath(dag, Chain(n, parent, v))
    && Last(Chain(n, parent, v)) == v
    && First(Chain(n, parent, v)) !in parent
    && PathCost(cost, Chain(n, parent, v)) == depth[v]
  }

  ghost predicate ChainsAttain(n: nat, dag: Dag, cost: Cost, depth: map<int, int>, parent: map<int, int>) {
    forall v :: 0 <= v < n ==> ChainAttains(n, dag, cost, depth, parent, v)
  }

  ghost predicate ParentsAscend(n: nat, dag: Dag, parent: map<int, int>) {
    forall v :: v in parent ==> 0 <= v < parent[v] < n && v in Next(dag, parent[v])
  }

  /** `depth` is the maximum cost of a path into each number, and `parent` holds a witness. */
  ghost predicate Deepest(n: nat, dag: Dag, cost: Cost, depth: map<int, int>, parent: map<int, int>) {
    && BoundsPaths(n, dag, cost, depth)
    && ChainsAttain(n, dag, cost, depth, parent)
    && ParentsAscend(n, dag, parent)
  }

  lemma {:induction false} PathIsBounded(n: nat, dag: Dag, cost: Cost, done: set<(int, int)>,
                                         depth: map<int, int>, parent: map<int, int>, p: seq<int>)
    requires Descending(n, dag) && Relaxed(n, cost, done, depth, parent)
    requires forall u, v :: v in Next(dag, u) ==> (u, v) in done
    requires IsDagPath(dag, p) && 0 <= Last(p) < n
    ensures PathCost(cost, p) <= depth[Last(p)]
    decreases |p|
  {
    if |p| > 1 {
      PathFront(dag, p);
      PathIsBounded(n, dag, cost, done, depth, parent, p[..|p| - 1]);
      PathCostSnoc(cost, p[..|p| - 1], Last(p));
    }
  }

  lemma {:induction false} ChainIsPath(n: nat, dag: Dag, cost: Cost, done: set<(int, int)>,
                                       depth: map<int, int>, parent: map<int, int>, v: int)
    requires Relaxed(n, cost, done, depth, parent)
    requires forall u, v :: (u, v) in done ==> v in Next(dag, u)
    requires 0 <= v < n
    ensures ChainAttains(n, dag, cost, depth, parent, v)
    decreases n - v
  {
    if v in parent {
      ChainIsPath(n, dag, cost, done, depth, parent, parent[v]);
      PathSnoc(dag, Chain(n, parent, parent[v]), v);
      PathCostSnoc(cost, Chain(n, parent, parent[v]), v);
    }
  }

  lemma RelaxedIsDeepest(n: nat, dag: Dag, cost: Cost, done: set<(int, int)>, depth: map<int, int>,
                         parent: map<int, int>)
    requires Descending(n, dag) && Relaxed(n, cost, done, depth, parent)
    requires forall u, v :: (u, v) in done <==> v in Next(dag, u)
    ensures Deepest(n, dag, cost, depth, parent)
  {
    forall p | IsDagPath(dag, p) && 0 <= Last(p) < n
      ensures Last(p) in depth && PathCost(cost, p) <= depth[Last(p)]
    {
      PathIsBounded(n, dag, cost, done, depth, parent, p);
    }
    assert BoundsPaths(n, dag, cost, depth);
    forall v | 0 <= v < n
      ensures ChainAttains(n, dag, cost, depth, parent, v)
    {
      ChainIsPath(n, dag, cost, done, depth, parent, v);
    }
    assert ChainsAttain(n, dag, cost, depth, parent);
    forall v | v in parent
      ensures 0 <= v < parent[v] < n && v in Next(dag, parent[v])
    {
      var u: int := parent[v];
      assert (u, v) in done;
    }
  }

  /** Walks `parent` backwards from `component`, then reverses the walk. */
  method UpstreamPath(n: nat, dag: Dag, parent: map<int, int>, component: int) returns (path: seq<int>)
    requires ParentsAscend(n, dag, parent) && 0 <= component < n
    ensures path == Chain(n, parent, component)
  {
    var walk := [component];
    while walk[|walk| - 1] in parent
      invariant walk != [] && 0 <= walk[|walk| - 1] < n
      invariant Chain(n, parent, walk[|walk| - 1]) + Reversed(walk[..|walk| - 1]) == Chain(n, parent, component)
      decreases n - walk[|walk| - 1]
    {
      var last := walk[|walk| - 1];
      walk := walk + [parent[last]];
      assert walk[..|walk| - 1] == walk[..|walk| - 2] + [last];
      ReversedSnoc(walk[..|walk| - 2], last);
    }
    path := Reversed(walk);
    ReversedSnoc(walk[..|walk| - 1], walk[|walk| - 1]);
    assert walk == walk[..|walk| - 1] + [walk[|walk| - 1]];
  }
}
