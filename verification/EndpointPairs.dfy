/** The best path from one class of launch signals to one class of capture signals. */
module EndpointPairs {
  import opened Collections
  import opened Dags
  import opened Digraphs
  import opened LongestPaths

  datatype BestPath = BestPath(source: Signal, destination: Signal, depth: int, path: seq<int>)

  /** `best` satisfies every relaxed edge whose source is reached, and is justified back to a start. */
  ghost predicate Reached(n: nat, cost: Cost, starts: set<int>, done: set<(int, int)>, best: map<int, int>,
                          parents: map<int, int>)
  {
    && (forall v <- starts :: v in best)
    && (forall v :: v in best ==> 0 <= v < n && best[v] >= 0)
    && (forall u, v :: (u, v) in done ==> 0 <= v < u < n)
    && (forall u, v :: (u, v) in done && u in best ==> v in best && best[u] + cost(u, v) <= best[v])
    && (forall v :: v in parents ==> v in best && Justified(cost, done, best, parents, v))
    && (forall v :: v in best && v !in parents ==> v in starts && best[v] == 0)
  }

  ghost predicate Justified(cost: Cost, done: set<(int, int)>, best: map<int, int>, parents: map<int, int>, v: int)
    requires v in parents && v in best
  {
    var u := parents[v];
    (u, v) in done && u in best && best[v] == best[u] + cost(u, v)
  }

  /** Each path start remembers a launch signal that lies in it. */
  ghost predicate Launched(sources: seq<Signal>, componentOf: map<Signal, int>, best: map<int, int>,
                           parents: map<int, int>, sourceFor: map<int, Signal>)
  {
    && sourceFor.Keys == best.Keys
    && (forall v :: v in best && v !in parents ==>
          IsFirstIn(sources, componentOf, v, sourceFor[v]))
  }

  /** The first of the signals that lies in the component. */
  ghost predicate IsFirstIn(signals: seq<Signal>, componentOf: map<Signal, int>, component: int, x: Signal) {
    && x in componentOf && componentOf[x] == component
    && exists i :: 0 <= i < |signals| && signals[i] == x &&
         forall j :: 0 <= j < i ==> signals[j] !in componentOf || componentOf[signals[j]] != component
  }

  lemma RaiseTarget(n: nat, cost: Cost, starts: set<int>, done: set<(int, int)>, best: map<int, int>,
                    parents: map<int, int>, u: int, v: int, candidate: int)
    requires NonNegative(cost)
    requires Reached(n, cost, starts, done, best, parents)
    requires 0 <= v < u < n && u in best
    requires forall w :: (v, w) !in done
    requires candidate == best[u] + cost(u, v) && (v in best ==> candidate > best[v])
    ensures Reached(n, cost, starts, done + {(u, v)}, best[v := candidate], parents[v := u])
  {
    var best', parents', done' := best[v := candidate], parents[v := u], done + {(u, v)};
    forall w | w in parents'
      ensures w in best' && Justified(cost, done', best', parents', w)
    {
      if w != v {
        assert Justified(cost, done, best, parents, w);
      }
    }
  }

  lemma KeepTarget(n: nat, cost: Cost, starts: set<int>, done: set<(int, int)>, best: map<int, int>,
                   parents: map<int, int>, u: int, v: int)
    requires Reached(n, cost, starts, done, best, parents)
    requires 0 <= v < u < n && u in best && v in best
    requires best[u] + cost(u, v) <= best[v]
    ensures Reached(n, cost, starts, done + {(u, v)}, best, parents)
  {
    forall w | w in parents
      ensures Justified(cost, done + {(u, v)}, best, parents, w)
    {
      assert Justified(cost, done, best, parents, w);
    }
  }

  lemma ReachEdgeStep(n: nat, cost: Cost, starts: set<int>, done: set<(int, int)>, best: map<int, int>,
                      parents: map<int, int>, u: int, v: int)
    requires NonNegative(cost)
    requires Reached(n, cost, starts, done, best, parents)
    requires 0 <= v < u < n && u in best
    requires forall w :: (v, w) !in done
    ensures var candidate := best[u] + cost(u, v);
            if candidate > (if v in best then best[v] else -1)
            then Reached(n, cost, starts, done + {(u, v)}, best[v := candidate], parents[v := u])
            else Reached(n, cost, starts, done + {(u, v)}, best, parents)
  {
    hide Justified;
    var candidate := best[u] + cost(u, v);
    if candidate > (if v in best then best[v] else -1) {
      RaiseTarget(n, cost, starts, done, best, parents, u, v, candidate);
    } else {
      assert best[u] >= 0;
      KeepTarget(n, cost, starts, done, best, parents, u, v);
    }
  }

  /** Relaxing edges out of a component that no source reaches changes nothing. */
  lemma SkipUnreached(n: nat, cost: Cost, starts: set<int>, done: set<(int, int)>, best: map<int, int>,
                      parents: map<int, int>, more: set<(int, int)>)
    requires Reached(n, cost, starts, done, best, parents)
    requires forall u, v :: (u, v) in more ==> 0 <= v < u < n && u !in best
    ensures Reached(n, cost, starts, done + more, best, parents)
  {
    var done' := done + more;
    forall u, v | (u, v) in done'
      ensures 0 <= v < u < n && (u in best ==> v in best && best[u] + cost(u, v) <= best[v])
    {
      assert (u, v) in done || (u, v) in more;
    }
    forall w | w in parents
      ensures Justified(cost, done', best, parents, w)
    {
      assert Justified(cost, done, best, parents, w);
    }
  }

  ghost function EdgesFrom(dag: Dag, order: seq<int>, i: int): set<(int, int)>
    requires 0 <= i <= |order|
  {
    set j, v | 0 <= j < i && v in Next(dag, order[j]) :: (order[j], v)
  }

  ghost function OutEdges(u: int, vs: set<int>): set<(int, int)> {
    set v | v in vs :: (u, v)
  }

  lemma EdgesFromSnoc(dag: Dag, order: seq<int>, i: int)
    requires 0 <= i < |order|
    ensures EdgesFrom(dag, order, i + 1) == EdgesFrom(dag, order, i) + OutEdges(order[i], Next(dag, order[i]))
  {
  }

  /** No edge out of a successor of `order[i]` has been relaxed when `order[i]` is taken up. */
  lemma TargetsUntouched(n: nat, dag: Dag, order: seq<int>, i: int, v: int)
    requires Topological(n, dag, order) && Descending(n, dag)
    requires 0 <= i < |order| && v in Next(dag, order[i])
    ensures forall w, vs :: (v, w) !in EdgesFrom(dag, order, i) + OutEdges(order[i], vs)
  {
    forall j | 0 <= j < i
      ensures order[j] != v
    {
      assert !Before(order, j, order[i]);
    }
  }

  method Launch(n: nat, sources: seq<Signal>, componentOf: map<Signal, int>, cost: Cost)
    returns (best: map<int, int>, sourceFor: map<int, Signal>)
    requires forall s <- sources :: s in componentOf && 0 <= componentOf[s] < n
    ensures Reached(n, cost, Starts(sources, componentOf), {}, best, map[])
    ensures Launched(sources, componentOf, best, map[], sourceFor)
  {
    best, sourceFor := map[], map[];
    for i := 0 to |sources|
      invariant forall v :: v in best <==> exists j :: 0 <= j < i && componentOf[sources[j]] == v
      invariant forall v <- best :: best[v] == 0 && 0 <= v < n
      invariant Launched(sources, componentOf, best, map[], sourceFor)
    {
      var component := componentOf[sources[i]];
      if component !in best || best[component] < 0 {
        best := best[component := 0];
        sourceFor := sourceFor[component := sources[i]];
      }
    }
  }

  ghost function Starts(sources: seq<Signal>, componentOf: map<Signal, int>): set<int>
    requires forall s <- sources :: s in componentOf
  {
    set i | 0 <= i < |sources| :: componentOf[sources[i]]
  }

  method Relax(n: nat, dag: Dag, order: seq<int>, cost: Cost, sources: seq<Signal>, componentOf: map<Signal, int>)
    returns (best: map<int, int>, parents: map<int, int>, sourceFor: map<int, Signal>)
    requires Descending(n, dag) && NonNegative(cost) && Topological(n, dag, order)
    requires forall s <- sources :: s in componentOf && 0 <= componentOf[s] < n
    ensures Reached(n, cost, Starts(sources, componentOf), EdgesFrom(dag, order, |order|), best, parents)
    ensures Launched(sources, componentOf, best, parents, sourceFor)
  {
    hide Reached, Launched;
    ghost var starts := Starts(sources, componentOf);
    best, sourceFor := Launch(n, sources, componentOf, cost);
    parents := map[];
    assert EdgesFrom(dag, order, 0) == {};
    for i := 0 to |order|
      invariant Reached(n, cost, starts, EdgesFrom(dag, order, i), best, parents)
      invariant Launched(sources, componentOf, best, parents, sourceFor)
    {
      var current := order[i];
      ghost var settled := EdgesFrom(dag, order, i);
      EdgesFromSnoc(dag, order, i);
      if current !in best {
        SkipUnreached(n, cost, starts, settled, best, parents, OutEdges(current, Next(dag, current)));
      } else {
        best, parents, sourceFor := RelaxFrom(n, dag, order, i, cost, sources, componentOf, best, parents, sourceFor);
      }
    }
  }

  method RelaxFrom(n: nat, dag: Dag, order: seq<int>, i: int, cost: Cost, sources: seq<Signal>,
                   componentOf: map<Signal, int>, best0: map<int, int>, parents0: map<int, int>,
                   sourceFor0: map<int, Signal>)
    returns (best: map<int, int>, parents: map<int, int>, sourceFor: map<int, Signal>)
    requires Descending(n, dag) && NonNegative(cost) && Topological(n, dag, order)
    requires forall s <- sources :: s in componentOf && 0 <= componentOf[s] < n
    requires 0 <= i < |order| && order[i] in best0
    requires Reached(n, cost, Starts(sources, componentOf), EdgesFrom(dag, order, i), best0, parents0)
    requires Launched(sources, componentOf, best0, parents0, sourceFor0)
    ensures Reached(n, cost, Starts(sources, componentOf), EdgesFrom(dag, order, i + 1), best, parents)
    ensures Launched(sources, componentOf, best, parents, sourceFor)
  {
    hide Reached, Topological, EdgesFrom;
    best, parents, sourceFor := best0, parents0, sourceFor0;
    var current := order[i];
    ghost var starts, settled := Starts(sources, componentOf), EdgesFrom(dag, order, i);
    EdgesFromSnoc(dag, order, i);
    var todo: set<int> := Next(dag, current);
    ghost var taken: set<int> := {};
    assert settled + OutEdges(current, taken) == settled;
    while todo != {}
      invariant taken !! todo && taken + todo == Next(dag, current)
      invariant current in best
      invariant Reached(n, cost, starts, settled + OutEdges(current, taken), best, parents)
      invariant Launched(sources, componentOf, best, parents, sourceFor)
      decreases todo
    {
      var target := Pick(todo);
      todo := todo - {target};
      TargetsUntouched(n, dag, order, i, target);
      ReachEdgeStep(n, cost, starts, settled + OutEdges(current, taken), best, parents, current, target);
      var candidate := best[current] + cost(current, target);
      if candidate > (if target in best then best[target] else -1) {
        best := best[target := candidate];
        parents := parents[target := current];
        sourceFor := sourceFor[target := sourceFor[current]];
      }
      assert settled + OutEdges(current, taken) + {(current, target)} ==
             settled + OutEdges(current, taken + {target});
      taken := taken + {target};
    }
    assert taken == Next(dag, current);
  }

  /** A path from the component of a launch signal to one of the target components. */
  ghost predicate Connects(dag: Dag, sources: seq<Signal>, componentOf: map<Signal, int>, targets: set<int>,
                           p: seq<int>)
    requires forall s <- sources :: s in componentOf
  {
    IsDagPath(dag, p) && First(p) in Starts(sources, componentOf) && Last(p) in targets
  }

  /** The first signal that lies in a component. */
  method FirstIn(targets: seq<Signal>, componentOf: map<Signal, int>, end: int) returns (destination: Signal)
    requires exists t <- targets :: t in componentOf && componentOf[t] == end
    ensures destination in targets && IsFirstIn(targets, componentOf, end, destination)
  {
    var i := 0;
    while targets[i] !in componentOf || componentOf[targets[i]] != end
      invariant 0 <= i < |targets|
      invariant forall j :: 0 <= j < i ==> targets[j] !in componentOf || componentOf[targets[j]] != end
      decreases |targets| - i
    {
      i := i + 1;
    }
    destination := targets[i];
  }

  /** The target component with the largest depth, among those that have one. */
  method DeepestEnd(ends: set<int>, best: map<int, int>) returns (end: int, found: bool)
    ensures found ==> end in ends && end in best && forall t <- ends :: t in best ==> best[t] <= best[end]
    ensures !found ==> forall t <- ends :: t !in best
  {
    end, found := 0, false;
    var todo := ends;
    while todo != {}
      invariant todo <= ends
      invariant found ==> end in ends && end in best
      invariant forall t <- ends :: t !in todo && t in best ==> found && best[t] <= best[end]
      decreases todo
    {
      var t := Pick(todo);
      todo := todo - {t};
      if t in best && (!found || best[t] > best[end]) {
        end, found := t, true;
      }
    }
  }

  /** The best path, as components, from one of `sources` to one of `targets`. */
  method BestEndpointPath(n: nat, dag: Dag, order: seq<int>, cost: Cost, sources: seq<Signal>, targets: seq<Signal>,
                          componentOf: map<Signal, int>) returns (r: Option<BestPath>)
    requires Descending(n, dag) && NonNegative(cost) && Topological(n, dag, order)
    requires forall s <- sources :: s in componentOf && 0 <= componentOf[s] < n
    requires forall t <- targets :: t in componentOf
    ensures var ends := Starts(targets, componentOf);
            && (r.None? <==> forall p :: !Connects(dag, sources, componentOf, ends, p))
            && (r.Some? ==>
                  && r.value.source in sources && r.value.destination in targets
                  && Connects(dag, sources, componentOf, ends, r.value.path)
                  && IsFirstIn(sources, componentOf, First(r.value.path), r.value.source)
                  && IsFirstIn(targets, componentOf, Last(r.value.path), r.value.destination)
                  && PathCost(cost, r.value.path) == r.value.depth)
            && (r.Some? ==> forall p :: Connects(dag, sources, componentOf, ends, p) ==>
                              PathCost(cost, p) <= r.value.depth)
  {
    if sources == [] || targets == [] {
      return None;
    }
    var best, parents, sourceFor := Relax(n, dag, order, cost, sources, componentOf);
    ghost var starts, done := Starts(sources, componentOf), EdgesFrom(dag, order, |order|);
    AllEdgesRelaxed(n, dag, order);
    var ends: set<int> := set t | t in targets :: componentOf[t];
    assert ends == Starts(targets, componentOf);
    forall p | Connects(dag, sources, componentOf, ends, p)
      ensures Last(p) in best && PathCost(cost, p) <= best[Last(p)]
    {
      ReachedBounds(n, dag, cost, starts, done, best, parents, p);
    }
    var end, found := DeepestEnd(ends, best);
    if !found {
      forall p
        ensures !Connects(dag, sources, componentOf, ends, p)
      {
        assert IsDagPath(dag, p) && Last(p) in ends ==> Last(p) !in best;
      }
      return None;
    }
    ReachedChain(n, dag, cost, starts, done, best, parents, end);
    var path := UpstreamPath(n, dag, parents, end);
    assert Connects(dag, sources, componentOf, ends, path);
    var destination := FirstIn(targets, componentOf, end);
    r := Some(BestPath(sourceFor[path[0]], destination, best[end], path));
  }

  lemma AllEdgesRelaxed(n: nat, dag: Dag, order: seq<int>)
    requires Descending(n, dag) && Topological(n, dag, order)
    ensures forall u, v :: (u, v) in EdgesFrom(dag, order, |order|) <==> v in Next(dag, u)
  {
    forall u, v | v in Next(dag, u)
      ensures (u, v) in EdgesFrom(dag, order, |order|)
    {
      assert u in order;
    }
  }

  lemma {:induction false} ReachedBounds(n: nat, dag: Dag, cost: Cost, starts: set<int>, done: set<(int, int)>,
                                         best: map<int, int>, parents: map<int, int>, p: seq<int>)
    requires Reached(n, cost, starts, done, best, parents)
    requires forall u, v :: v in Next(dag, u) ==> (u, v) in done
    requires IsDagPath(dag, p) && First(p) in starts
    ensures Last(p) in best && PathCost(cost, p) <= best[Last(p)]
    decreases |p|
  {
    if |p| > 1 {
      PathFront(dag, p);
      var q := p[..|p| - 1];
      ReachedBounds(n, dag, cost, starts, done, best, parents, q);
      PathCostSnoc(cost, q, Last(p));
      assert (Last(q), Last(p)) in done;
    }
  }

  lemma {:induction false} ReachedChain(n: nat, dag: Dag, cost: Cost, starts: set<int>, done: set<(int, int)>,
                                        best: map<int, int>, parents: map<int, int>, v: int)
    requires Reached(n, cost, starts, done, best, parents)
    requires forall u, v :: (u, v) in done ==> v in Next(dag, u)
    requires v in best
    ensures ParentsAscend(n, dag, parents)
    ensures IsDagPath(dag, Chain(n, parents, v)) && Last(Chain(n, parents, v)) == v
    ensures First(Chain(n, parents, v)) in best && First(Chain(n, parents, v)) !in parents
    ensures First(Chain(n, parents, v)) in starts
    ensures PathCost(cost, Chain(n, parents, v)) == best[v]
    decreases n - v
  {
    forall w | w in parents
      ensures 0 <= w < parents[w] < n && w in Next(dag, parents[w])
    {
      assert Justified(cost, done, best, parents, w);
      var u: int := parents[w];
      assert (u, w) in done;
    }
    if v in parents {
      assert Justified(cost, done, best, parents, v);
      ReachedChain(n, dag, cost, starts, done, best, parents, parents[v]);
      PathSnoc(dag, Chain(n, parents, parents[v]), v);
      PathCostSnoc(cost, Chain(n, parents, parents[v]), v);
    }
  }
}
