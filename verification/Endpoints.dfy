/** Longest paths towards each kind of timing endpoint, computed against the topological order. */
module Endpoints {
  import opened Collections
  import opened Dags
  import opened LongestPaths

  datatype EndpointKind = RegisterD | RegisterControl | ModuleOutput | ChildInput | CombinationalSink

  const ENDPOINT_KINDS: seq<EndpointKind> := [RegisterD, RegisterControl, ModuleOutput, ChildInput, CombinationalSink]

  type Kinds = int -> set<EndpointKind>

  /** One kind's tables agree with the terminals and the out-edges of `c`. */
  ghost predicate Settled(dag: Dag, cost: Cost, terminal: bool, depth: map<int, int>, next: map<int, int>, c: int) {
    && c in depth && depth[c] >= -1
    && (terminal ==> depth[c] >= 0)
    && (forall t <- Next(dag, c) :: t in depth && (depth[t] >= 0 ==> depth[c] >= cost(c, t) + depth[t]))
    && (c in next ==>
          && next[c] in Next(dag, c) && next[c] in depth && depth[next[c]] >= 0
          && depth[c] == cost(c, next[c]) + depth[next[c]] && (terminal ==> depth[c] > 0))
    && (c !in next ==> depth[c] == -1 || (depth[c] == 0 && terminal))
  }

  /** Best choice for `c` among its own terminal and the successors outside `todo`. */
  ghost predicate BestSoFar(dag: Dag, cost: Cost, terminal: bool, depth: map<int, int>, todo: set<int>, c: int,
                            best: int, chosen: bool, bestTarget: int)
    requires forall t <- Next(dag, c) :: t in depth
  {
    && best >= -1
    && (terminal ==> best >= 0)
    && (forall t <- Next(dag, c) :: t !in todo && depth[t] >= 0 ==> best >= cost(c, t) + depth[t])
    && (chosen ==> bestTarget in Next(dag, c) && depth[bestTarget] >= 0 &&
                   best == cost(c, bestTarget) + depth[bestTarget] && (terminal ==> best > 0))
    && (!chosen ==> best == -1 || (best == 0 && terminal))
  }

  /** Following `next` from `c` for as long as possible. */
  ghost function Walk(next: map<int, int>, c: int): seq<int>
    decreases if c < 0 then 0 else c
  {
    if c in next && 0 <= next[c] < c then [c] + Walk(next, next[c]) else [c]
  }

  /** `depth[c]` is -1 when no terminal is reachable from `c`, and otherwise the maximum cost of a path
      from `c` to one, attained by the `next` walk. */
  ghost predicate Farthest(dag: Dag, cost: Cost, terminals: iset<int>, depth: map<int, int>, next: map<int, int>,
                           c: int)
  {
    && c in depth
    && (forall p :: IsDagPath(dag, p) && First(p) == c && Last(p) in terminals ==>
          0 <= PathCost(cost, p) <= depth[c])
    && (depth[c] != -1 ==>
          && IsDagPath(dag, Walk(next, c)) && First(Walk(next, c)) == c && Last(Walk(next, c)) in terminals
          && PathCost(cost, Walk(next, c)) == depth[c])
    && (c in next && c in terminals ==> depth[c] > 0)
  }

  ghost function TerminalsOf(n: nat, kinds: Kinds, kind: EndpointKind): iset<int> {
    iset c | 0 <= c < n && kind in kinds(c)
  }

  ghost predicate AllSettled(dag: Dag, cost: Cost, kinds: Kinds, kind: EndpointKind, settled: set<int>,
                             depth: map<int, int>, next: map<int, int>)
  {
    && (forall c <- settled :: Settled(dag, cost, kind in kinds(c), depth, next, c))
    && (forall c :: c in next ==> c in settled)
  }

  lemma SettledFrame(dag: Dag, cost: Cost, kinds: Kinds, kind: EndpointKind, settled: set<int>,
                     depth: map<int, int>, next: map<int, int>, c: int, best: int, chosen: bool, bestTarget: int)
    requires AllSettled(dag, cost, kinds, kind, settled, depth, next) && c !in settled && c !in Next(dag, c)
    requires forall u <- settled :: c !in Next(dag, u)
    requires forall t <- Next(dag, c) :: t in settled
    requires forall t <- Next(dag, c) :: t in depth
    requires BestSoFar(dag, cost, kind in kinds(c), depth, {}, c, best, chosen, bestTarget)
    ensures AllSettled(dag, cost, kinds, kind, settled + {c}, depth[c := best],
                       if chosen then next[c := bestTarget] else next)
  {
    var depth', next' := depth[c := best], if chosen then next[c := bestTarget] else next;
    forall u | u in settled
      ensures Settled(dag, cost, kind in kinds(u), depth', next', u)
    {
      assert Settled(dag, cost, kind in kinds(u), depth, next, u);
    }
  }

  /** Settles one component for one endpoint kind. */
  method SettleOne(dag: Dag, cost: Cost, terminal: bool, depth: map<int, int>, c: int)
    returns (best: int, chosen: bool, bestTarget: int)
    requires NonNegative(cost)
    requires forall t <- Next(dag, c) :: t in depth
    ensures BestSoFar(dag, cost, terminal, depth, {}, c, best, chosen, bestTarget)
  {
    best := if terminal then 0 else -1;
    chosen, bestTarget := false, 0;
    var todo: set<int> := Next(dag, c);
    while todo != {}
      invariant todo <= Next(dag, c)
      invariant BestSoFar(dag, cost, terminal, depth, todo, c, best, chosen, bestTarget)
      decreases todo
    {
      var target := Pick(todo);
      todo := todo - {target};
      var targetDepth := depth[target];
      if targetDepth >= 0 {
        var candidate := cost(c, target) + targetDepth;
        if candidate > best {
          best, chosen, bestTarget := candidate, true, target;
        }
      }
    }
  }

  type Tables = map<EndpointKind, map<int, int>>

  ghost predicate TablesSettled(dag: Dag, cost: Cost, kinds: Kinds, settled: set<int>, depth: Tables, next: Tables,
                                kind: EndpointKind)
  {
    kind in depth && kind in next && AllSettled(dag, cost, kinds, kind, settled, depth[kind], next[kind])
  }

  ghost function Suffix(order: seq<int>, i: int): set<int>
    requires 0 <= i <= |order|
  {
    set j | i <= j < |order| :: order[j]
  }

  /** In a topological order the successors of an element all lie after it. */
  lemma SuccessorsAreLater(n: nat, dag: Dag, order: seq<int>, i: int)
    requires Topological(n, dag, order) && Descending(n, dag) && 0 <= i < |order|
    ensures Suffix(order, i) == Suffix(order, i + 1) + {order[i]} && order[i] !in Suffix(order, i + 1)
    ensures forall t <- Next(dag, order[i]) :: t in Suffix(order, i + 1)
    ensures forall u <- Suffix(order, i + 1) :: order[i] !in Next(dag, u)
  {
    forall t | t in Next(dag, order[i])
      ensures t in Suffix(order, i + 1)
    {
      assert t in order;
      var j :| 0 <= j < |order| && order[j] == t;
      assert Before(order, j, order[i]);
    }
    forall u | u in Suffix(order, i + 1)
      ensures order[i] !in Next(dag, u)
    {
      var j :| i + 1 <= j < |order| && order[j] == u;
      assert !Before(order, i, u);
    }
  }

  ghost predicate AllTablesSettled(dag: Dag, cost: Cost, kinds: Kinds, settled: set<int>, depth: Tables,
                                   next: Tables, from: int, to: int)
  {
    forall j :: 0 <= from <= j < to <= |ENDPOINT_KINDS| ==>
      TablesSettled(dag, cost, kinds, settled, depth, next, ENDPOINT_KINDS[j])
  }

  /** Settles one component for every endpoint kind. */
  method SettleComponent(dag: Dag, cost: Cost, kinds: Kinds, ghost settled: set<int>, c: int,
                         depths: Tables, nexts: Tables) returns (depth: Tables, next: Tables)
    requires NonNegative(cost)
    requires AllTablesSettled(dag, cost, kinds, settled, depths, nexts, 0, |ENDPOINT_KINDS|)
    requires c !in settled && (forall u <- settled :: c !in Next(dag, u))
    requires c !in Next(dag, c) && (forall t <- Next(dag, c) :: t in settled)
    ensures AllTablesSettled(dag, cost, kinds, settled + {c}, depth, next, 0, |ENDPOINT_KINDS|)
  {
    hide AllSettled, BestSoFar;
    depth, next := depths, nexts;
    for k := 0 to |ENDPOINT_KINDS|
      invariant AllTablesSettled(dag, cost, kinds, settled + {c}, depth, next, 0, k)
      invariant AllTablesSettled(dag, cost, kinds, settled, depth, next, k, |ENDPOINT_KINDS|)
    {
      var kind := ENDPOINT_KINDS[k];
      assert TablesSettled(dag, cost, kinds, settled, depth, next, kind);
      SettledDepths(dag, cost, kinds, kind, settled, depth[kind], next[kind]);
      var best, chosen, target := SettleOne(dag, cost, kind in kinds(c), depth[kind], c);
      SettledFrame(dag, cost, kinds, kind, settled, depth[kind], next[kind], c, best, chosen, target);
      depth := depth[kind := depth[kind][c := best]];
      if chosen {
        next := next[kind := next[kind][c := target]];
      }
    }
  }

  lemma SettledDepths(dag: Dag, cost: Cost, kinds: Kinds, kind: EndpointKind, settled: set<int>,
                      depth: map<int, int>, next: map<int, int>)
    requires AllSettled(dag, cost, kinds, kind, settled, depth, next)
    ensures forall c <- settled :: c in depth
  {
    forall c | c in settled
      ensures c in depth
    {
      assert Settled(dag, cost, kind in kinds(c), depth, next, c);
    }
  }

  ghost predicate TablesFarthest(n: nat, dag: Dag, cost: Cost, kinds: Kinds, depth: Tables, next: Tables,
                                 kind: EndpointKind, c: int)
  {
    kind in depth && kind in next && Farthest(dag, cost, TerminalsOf(n, kinds, kind), depth[kind], next[kind], c)
  }

  /** Every table of every kind is right for every component. */
  ghost predicate AllFarthest(n: nat, dag: Dag, cost: Cost, kinds: Kinds, depth: Tables, next: Tables) {
    forall kind, c :: 0 <= c < n ==> TablesFarthest(n, dag, cost, kinds, depth, next, kind, c)
  }

  /** The kinds listed are all there are. */
  ghost function KindNumber(kind: EndpointKind): (j: nat)
    ensures j < |ENDPOINT_KINDS| && ENDPOINT_KINDS[j] == kind
  {
    match kind
    case RegisterD => 0
    case RegisterControl => 1
    case ModuleOutput => 2
    case ChildInput => 3
    case CombinationalSink => 4
  }

  method EndpointDepths(n: nat, dag: Dag, order: seq<int>, cost: Cost, kinds: Kinds)
    returns (depth: Tables, next: Tables)
    requires Descending(n, dag) && NonNegative(cost) && Topological(n, dag, order)
    ensures AllFarthest(n, dag, cost, kinds, depth, next)
  {
    depth, next := map[], map[];
    for k := 0 to |ENDPOINT_KINDS|
      invariant AllTablesSettled(dag, cost, kinds, {}, depth, next, 0, k)
    {
      depth := depth[ENDPOINT_KINDS[k] := Filled(n, -1)];
      next := next[ENDPOINT_KINDS[k] := map[]];
    }
    var i := |order|;
    assert Suffix(order, i) == {};
    while i > 0
      invariant 0 <= i <= |order|
      invariant AllTablesSettled(dag, cost, kinds, Suffix(order, i), depth, next, 0, |ENDPOINT_KINDS|)
    {
      i := i - 1;
      SuccessorsAreLater(n, dag, order, i);
      depth, next := SettleComponent(dag, cost, kinds, Suffix(order, i + 1), order[i], depth, next);
    }
    SettledIsAllFarthest(n, dag, order, cost, kinds, depth, next);
  }

  lemma SettledIsAllFarthest(n: nat, dag: Dag, order: seq<int>, cost: Cost, kinds: Kinds, depth: Tables, next: Tables)
    requires Descending(n, dag) && NonNegative(cost) && Topological(n, dag, order)
    requires AllTablesSettled(dag, cost, kinds, Suffix(order, 0), depth, next, 0, |ENDPOINT_KINDS|)
    ensures AllFarthest(n, dag, cost, kinds, depth, next)
  {
    forall v | 0 <= v < n
      ensures v in Suffix(order, 0)
    {
      assert v in order;
    }
    forall kind: EndpointKind, c | 0 <= c < n
      ensures TablesFarthest(n, dag, cost, kinds, depth, next, kind, c)
    {
      assert kind == ENDPOINT_KINDS[KindNumber(kind)];
      assert TablesSettled(dag, cost, kinds, Suffix(order, 0), depth, next, kind);
      SettledIsFarthest(n, dag, cost, kinds, kind, Suffix(order, 0), depth[kind], next[kind], c);
    }
  }

  lemma {:induction false} PathToTerminal(n: nat, dag: Dag, cost: Cost, kinds: Kinds, kind: EndpointKind,
                                          settled: set<int>, depth: map<int, int>, next: map<int, int>, p: seq<int>)
    requires Descending(n, dag)
    requires AllSettled(dag, cost, kinds, kind, settled, depth, next) && (forall v :: 0 <= v < n ==> v in settled)
    requires NonNegative(cost)
    requires IsDagPath(dag, p) && Last(p) in TerminalsOf(n, kinds, kind)
    ensures First(p) in depth && 0 <= PathCost(cost, p) <= depth[First(p)]
    decreases |p|
  {
    if |p| > 1 {
      PathTail(dag, p);
      PathToTerminal(n, dag, cost, kinds, kind, settled, depth, next, p[1..]);
      assert 0 <= p[0] < n;
    }
    assert Settled(dag, cost, kind in kinds(p[0]), depth, next, p[0]);
  }

  lemma {:induction false} WalkAttains(n: nat, dag: Dag, cost: Cost, kinds: Kinds, kind: EndpointKind,
                                       settled: set<int>, depth: map<int, int>, next: map<int, int>, c: int)
    requires Descending(n, dag)
    requires AllSettled(dag, cost, kinds, kind, settled, depth, next) && (forall v :: 0 <= v < n ==> v in settled)
    requires 0 <= c < n && c in depth && depth[c] != -1
    ensures IsDagPath(dag, Walk(next, c)) && First(Walk(next, c)) == c
    ensures Last(Walk(next, c)) in TerminalsOf(n, kinds, kind)
    ensures PathCost(cost, Walk(next, c)) == depth[c]
    decreases c
  {
    assert Settled(dag, cost, kind in kinds(c), depth, next, c);
    if c in next {
      WalkAttains(n, dag, cost, kinds, kind, settled, depth, next, next[c]);
      PathCons(dag, c, Walk(next, next[c]));
      assert ([c] + Walk(next, next[c]))[1..] == Walk(next, next[c]);
    }
  }

  lemma SettledIsFarthest(n: nat, dag: Dag, cost: Cost, kinds: Kinds, kind: EndpointKind, settled: set<int>,
                          depth: map<int, int>, next: map<int, int>, c: int)
    requires Descending(n, dag) && NonNegative(cost)
    requires AllSettled(dag, cost, kinds, kind, settled, depth, next) && (forall v :: 0 <= v < n ==> v in settled)
    requires 0 <= c < n
    ensures Farthest(dag, cost, TerminalsOf(n, kinds, kind), depth, next, c)
  {
    assert Settled(dag, cost, kind in kinds(c), depth, next, c);
    forall p | IsDagPath(dag, p) && First(p) == c && Last(p) in TerminalsOf(n, kinds, kind)
      ensures 0 <= PathCost(cost, p) <= depth[c]
    {
      PathToTerminal(n, dag, cost, kinds, kind, settled, depth, next, p);
    }
    if depth[c] != -1 {
      WalkAttains(n, dag, cost, kinds, kind, settled, depth, next, c);
    }
  }
}
