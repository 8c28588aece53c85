/** The bounded walk that measures how much logic one lap around a component can contain. */
module SimplePaths {
  import opened Arithmetic
  import opened Collections
  import opened Digraphs

  datatype Entry = Entry(source: Signal, visited: set<Signal>, score: int)

  /** Edges inside the component that carry values rather than mere sensitivity. */
  function ValueTargets(g: Graph, members: set<Signal>, sensitivity: set<(Signal, Signal)>, a: Signal): set<Signal> {
    set b | b in Successors(g, a) && b in members && (a, b) !in sensitivity
  }

  function WeightOf(weights: Weights, a: Signal, b: Signal): int {
    if (a, b) in weights then weights[(a, b)] else 1
  }

  /** A path over value edges inside the component that never revisits a signal. */
  ghost predicate IsLap(g: Graph, members: set<Signal>, sensitivity: set<(Signal, Signal)>, p: seq<Signal>) {
    && p != []
    && (forall i :: 0 <= i < |p| ==> p[i] in members)
    && (forall i, j :: 0 <= i < j < |p| ==> p[i] != p[j])
    && (forall i, j :: 0 <= i < j < |p| && j == i + 1 ==> Edge(g, p[i], p[j]) && (p[i], p[j]) !in sensitivity)
  }

  ghost function End(p: seq<Signal>): Signal
    requires p != []
  {
    p[|p| - 1]
  }

  ghost function Visited(p: seq<Signal>): set<Signal> {
    set i | 0 <= i < |p| :: p[i]
  }

  ghost function LapWeight(weights: Weights, p: seq<Signal>): int {
    if |p| < 2 then 0
    else
      var e := (p[|p| - 2], p[|p| - 1]);
      LapWeight(weights, p[..|p| - 1]) + if e in weights then weights[e] else 1
  }

  ghost predicate Witnesses(g: Graph, members: set<Signal>, sensitivity: set<(Signal, Signal)>, weights: Weights,
                            e: Entry, p: seq<Signal>)
  {
    IsLap(g, members, sensitivity, p) && End(p) == e.source && Visited(p) == e.visited &&
      LapWeight(weights, p) == e.score
  }

  ghost predicate Genuine(g: Graph, members: set<Signal>, sensitivity: set<(Signal, Signal)>, weights: Weights,
                          e: Entry)
  {
    exists p :: Witnesses(g, members, sensitivity, weights, e, p)
  }

  lemma LapSnoc(g: Graph, members: set<Signal>, sensitivity: set<(Signal, Signal)>, weights: Weights, p: seq<Signal>,
                b: Signal)
    requires IsLap(g, members, sensitivity, p)
    requires b in ValueTargets(g, members, sensitivity, End(p)) && b !in Visited(p)
    ensures IsLap(g, members, sensitivity, p + [b])
    ensures Visited(p + [b]) == Visited(p) + {b} && End(p + [b]) == b
    ensures LapWeight(weights, p + [b]) == LapWeight(weights, p) + WeightOf(weights, End(p), b)
  {
    var q := p + [b];
    assert q[..|q| - 1] == p;
    forall x
      ensures x in Visited(q) <==> x in Visited(p) || x == b
    {
      if x in Visited(p) {
        var i :| 0 <= i < |p| && p[i] == x;
        assert q[i] == x;
      }
      if x == b {
        assert q[|p|] == x;
      }
    }
  }

  lemma LapFront(g: Graph, members: set<Signal>, sensitivity: set<(Signal, Signal)>, p: seq<Signal>)
    requires IsLap(g, members, sensitivity, p) && |p| > 1
    ensures IsLap(g, members, sensitivity, p[..|p| - 1])
    ensures End(p) in ValueTargets(g, members, sensitivity, End(p[..|p| - 1]))
    ensures End(p) !in Visited(p[..|p| - 1]) && p == p[..|p| - 1] + [End(p)]
  {
  }

  /** Laps that end alike and visit the same signals weigh the same. */
  ghost predicate StateDetermined(g: Graph, members: set<Signal>, sensitivity: set<(Signal, Signal)>,
                                  weights: Weights)
  {
    forall p, q | IsLap(g, members, sensitivity, p) && IsLap(g, members, sensitivity, q) ::
      End(p) == End(q) && Visited(p) == Visited(q) ==> LapWeight(weights, p) == LapWeight(weights, q)
  }

  type State = (Signal, set<Signal>)

  ghost predicate IsLapState(g: Graph, members: set<Signal>, sensitivity: set<(Signal, Signal)>, s: State) {
    exists p :: IsLap(g, members, sensitivity, p) && (End(p), Visited(p)) == s
  }

  ghost predicate AreLapStates(g: Graph, members: set<Signal>, sensitivity: set<(Signal, Signal)>, states: set<State>) {
    forall s <- states :: IsLapState(g, members, sensitivity, s)
  }

  function StateLimit(members: set<Signal>): int {
    Max(10000, |members| * 4096)
  }

  /** The laps have no more ends and visited sets between them than the walk may expand. */
  ghost predicate FitsBudget(g: Graph, members: set<Signal>, sensitivity: set<(Signal, Signal)>) {
    forall states: set<State> :: AreLapStates(g, members, sensitivity, states) ==> |states| <= StateLimit(members)
  }

  /** What a walk has to show for itself: the best score over the states it expanded, which are all there are, or as
      many as the limit allows. */
  ghost predicate IsSurvey(g: Graph, members: set<Signal>, sensitivity: set<(Signal, Signal)>, weights: Weights,
                           seen: set<State>, best: int)
  {
    && AreLapStates(g, members, sensitivity, seen) && Scored(g, members, sensitivity, weights, seen, best)
    && |seen| <= StateLimit(members)
    && (|seen| == StateLimit(members) || forall s :: IsLapState(g, members, sensitivity, s) ==> s in seen)
  }

  ghost predicate Waiting(stack: seq<Entry>, s: State) {
    exists i :: 0 <= i < |stack| && stack[i].source == s.0 && stack[i].visited == s.1
  }

  ghost predicate Known(seen: set<State>, stack: seq<Entry>, s: State) {
    s in seen || Waiting(stack, s)
  }

  /** The one-signal states are known, and so is every extension of a state already expanded. */
  ghost predicate Covered(g: Graph, members: set<Signal>, sensitivity: set<(Signal, Signal)>, seen: set<State>,
                          stack: seq<Entry>)
  {
    && (forall a <- members :: Known(seen, stack, (a, {a})))
    && (forall s, b :: s in seen && b in ValueTargets(g, members, sensitivity, s.0) && b !in s.1 ==>
          Known(seen, stack, (b, s.1 + {b})))
  }

  /** The best score so far is that of some lap and no less than that of the laps already expanded. */
  ghost predicate Scored(g: Graph, members: set<Signal>, sensitivity: set<(Signal, Signal)>, weights: Weights,
                         seen: set<State>, best: int)
  {
    && (exists p :: IsLap(g, members, sensitivity, p) && LapWeight(weights, p) == best)
    && (StateDetermined(g, members, sensitivity, weights) ==>
          forall p :: IsLap(g, members, sensitivity, p) && (End(p), Visited(p)) in seen ==>
            LapWeight(weights, p) <= best)
  }

  ghost predicate AllGenuine(g: Graph, members: set<Signal>, sensitivity: set<(Signal, Signal)>, weights: Weights,
                             stack: seq<Entry>)
  {
    forall i :: 0 <= i < |stack| ==> Genuine(g, members, sensitivity, weights, stack[i])
  }

  method PushStarts(g: Graph, members: set<Signal>, sensitivity: set<(Signal, Signal)>, weights: Weights)
    returns (stack: seq<Entry>)
    ensures AllGenuine(g, members, sensitivity, weights, stack)
    ensures Covered(g, members, sensitivity, {}, stack)
  {
    stack := [];
    var todo := members;
    while todo != {}
      invariant todo <= members
      invariant AllGenuine(g, members, sensitivity, weights, stack)
      invariant forall a <- members :: a in todo || Waiting(stack, (a, {a}))
      decreases todo
    {
      var source :| source in todo;
      todo := todo - {source};
      ghost var before := stack;
      assert Witnesses(g, members, sensitivity, weights, Entry(source, {source}, 0), [source]);
      stack := stack + [Entry(source, {source}, 0)];
      WaitingGrows(before, stack);
      assert stack[|before|].source == source;
    }
  }

  lemma WaitingGrows(before: seq<Entry>, after: seq<Entry>)
    requires before <= after
    ensures forall s: State :: Waiting(before, s) ==> Waiting(after, s)
  {
    forall s: State | Waiting(before, s)
      ensures Waiting(after, s)
    {
      var i :| 0 <= i < |before| && before[i].source == s.0 && before[i].visited == s.1;
      assert after[i] == before[i];
    }
  }

  method PushExtensions(g: Graph, members: set<Signal>, sensitivity: set<(Signal, Signal)>, weights: Weights,
                        stack0: seq<Entry>, e: Entry) returns (stack: seq<Entry>)
    requires AllGenuine(g, members, sensitivity, weights, stack0)
    requires Genuine(g, members, sensitivity, weights, e)
    ensures AllGenuine(g, members, sensitivity, weights, stack)
    ensures stack0 <= stack
    ensures forall b <- ValueTargets(g, members, sensitivity, e.source) :: b !in e.visited ==>
              Waiting(stack, (b, e.visited + {b}))
  {
    stack := stack0;
    var todo := ValueTargets(g, members, sensitivity, e.source);
    ghost var p :| Witnesses(g, members, sensitivity, weights, e, p);
    while todo != {}
      invariant todo <= ValueTargets(g, members, sensitivity, e.source)
      invariant AllGenuine(g, members, sensitivity, weights, stack)
      invariant stack0 <= stack
      invariant forall b <- ValueTargets(g, members, sensitivity, e.source) :: b !in todo && b !in e.visited ==>
                  Waiting(stack, (b, e.visited + {b}))
      decreases todo
    {
      var target :| target in todo;
      todo := todo - {target};
      if target !in e.visited {
        var next := Entry(target, e.visited + {target}, e.score + WeightOf(weights, e.source, target));
        LapSnoc(g, members, sensitivity, weights, p, target);
        assert Witnesses(g, members, sensitivity, weights, next, p + [target]);
        ghost var before := stack;
        stack := stack + [next];
        WaitingGrows(before, stack);
        assert stack[|before|] == next;
      }
    }
  }

  /** Popping an entry loses track of nothing but its own state. */
  lemma PopWaiting(stack: seq<Entry>, s: State)
    requires stack != [] && Waiting(stack, s)
    ensures Waiting(stack[..|stack| - 1], s) || s == (stack[|stack| - 1].source, stack[|stack| - 1].visited)
  {
    var i :| 0 <= i < |stack| && stack[i].source == s.0 && stack[i].visited == s.1;
    if i < |stack| - 1 {
      assert stack[..|stack| - 1][i] == stack[i];
    }
  }

  lemma ExpandKeepsKnown(seen: set<State>, stack: seq<Entry>, after: seq<Entry>, s: State)
    requires stack != [] && stack[..|stack| - 1] <= after && Known(seen, stack, s)
    ensures Known(seen + {(stack[|stack| - 1].source, stack[|stack| - 1].visited)}, after, s)
  {
    if s !in seen {
      PopWaiting(stack, s);
      WaitingGrows(stack[..|stack| - 1], after);
    }
  }

  lemma ExpandCovers(g: Graph, members: set<Signal>, sensitivity: set<(Signal, Signal)>, seen: set<State>,
                     stack: seq<Entry>, after: seq<Entry>)
    requires Covered(g, members, sensitivity, seen, stack)
    requires stack != [] && stack[..|stack| - 1] <= after
    requires var e := stack[|stack| - 1];
             || (e.source, e.visited) in seen
             || (forall b <- ValueTargets(g, members, sensitivity, e.source) :: b !in e.visited ==>
                   Waiting(after, (b, e.visited + {b})))
    ensures Covered(g, members, sensitivity, seen + {(stack[|stack| - 1].source, stack[|stack| - 1].visited)}, after)
  {
    var e := stack[|stack| - 1];
    var seen' := seen + {(e.source, e.visited)};
    forall a | a in members
      ensures Known(seen', after, (a, {a}))
    {
      ExpandKeepsKnown(seen, stack, after, (a, {a}));
    }
    forall s, b | s in seen' && b in ValueTargets(g, members, sensitivity, s.0) && b !in s.1
      ensures Known(seen', after, (b, s.1 + {b}))
    {
      if s in seen {
        ExpandKeepsKnown(seen, stack, after, (b, s.1 + {b}));
      }
    }
  }

  lemma ExpandScores(g: Graph, members: set<Signal>, sensitivity: set<(Signal, Signal)>, weights: Weights,
                     seen: set<State>, best: int, e: Entry)
    requires Scored(g, members, sensitivity, weights, seen, best)
    requires Genuine(g, members, sensitivity, weights, e)
    ensures Scored(g, members, sensitivity, weights, seen + {(e.source, e.visited)}, Max(best, e.score))
  {
    var q :| Witnesses(g, members, sensitivity, weights, e, q);
    if StateDetermined(g, members, sensitivity, weights) {
      forall p | IsLap(g, members, sensitivity, p) && (End(p), Visited(p)) in seen + {(e.source, e.visited)}
        ensures LapWeight(weights, p) <= Max(best, e.score)
      {
        if (End(p), Visited(p)) !in seen {
          assert End(p) == End(q) && Visited(p) == Visited(q);
        }
      }
    }
  }

  /** Once nothing is waiting, every lap has been expanded. */
  lemma {:induction false} EveryLapIsSeen(g: Graph, members: set<Signal>, sensitivity: set<(Signal, Signal)>,
                                          seen: set<State>, p: seq<Signal>)
    requires Covered(g, members, sensitivity, seen, []) && IsLap(g, members, sensitivity, p)
    ensures (End(p), Visited(p)) in seen
    decreases |p|
  {
    if |p| == 1 {
      assert Visited(p) == {p[0]};
      assert Known(seen, [], (p[0], {p[0]}));
    } else {
      var q := p[..|p| - 1];
      LapFront(g, members, sensitivity, p);
      EveryLapIsSeen(g, members, sensitivity, seen, q);
      LapSnoc(g, members, sensitivity, map[], q, End(p));
      assert Known(seen, [], (End(p), Visited(q) + {End(p)}));
    }
  }

  /** A set of subsets of `base` has at most 2^|base| elements. */
  lemma {:induction false} SubsetCount<T>(subsets: set<set<T>>, base: set<T>)
    requires forall s <- subsets :: s <= base
    ensures |subsets| <= Pow2(|base|)
    decreases |base|
  {
    if base == {} {
      assert forall s <- subsets :: s == {};
      Cardinality(subsets, {{}});
    } else {
      var x :| x in base;
      var without, with := set s | s in subsets && x !in s, set s | s in subsets && x in s;
      SubsetCount(without, base - {x});
      TrimmedFits(with, base, x);
      SubsetCount(Trimmed(with, x), base - {x});
      TrimmedCount(with, x);
      assert subsets == without + with && without !! with;
    }
  }

  ghost function Trimmed<T>(with: set<set<T>>, x: T): set<set<T>> {
    set s | s in with :: s - {x}
  }

  /** Removing a common element is injective. */
  lemma {:induction false} TrimmedCount<T>(with: set<set<T>>, x: T)
    requires forall s <- with :: x in s
    ensures |with| == |Trimmed(with, x)|
    decreases |with|
  {
    if with != {} {
      var s :| s in with;
      var rest := with - {s};
      TrimmedCount(rest, x);
      forall r | r in rest
        ensures r - {x} != s - {x}
      {
        assert r == (r - {x}) + {x} && s == (s - {x}) + {x};
      }
      assert Trimmed(with, x) == Trimmed(rest, x) + {s - {x}};
    }
  }

  lemma TrimmedFits<T>(with: set<set<T>>, base: set<T>, x: T)
    requires forall s <- with :: s <= base
    ensures forall t <- Trimmed(with, x) :: t <= base - {x}
  {
  }

  ghost function VisitedSets(here: set<State>): set<set<Signal>> {
    set s | s in here :: s.1
  }

  lemma VisitedSetsFit(here: set<State>, members: set<Signal>, x: Signal)
    requires forall s <- here :: s.0 == x && x in s.1 && s.1 <= members
    ensures forall v <- VisitedSets(here) :: x in v && v <= members
  {
  }

  lemma StatesEndingIn(here: set<State>, members: set<Signal>, x: Signal)
    requires forall s <- here :: s.0 == x && x in s.1 && s.1 <= members
    requires x in members
    ensures |here| <= Pow2(|members| - 1)
  {
    hide VisitedSets, Trimmed, Pow2;
    var sets := VisitedSets(here);
    VisitedSetsFit(here, members, x);
    ProjectionCount(here, x);
    TrimmedCount(sets, x);
    TrimmedFits(sets, members, x);
    SubsetCount(Trimmed(sets, x), members - {x});
    assert |members - {x}| == |members| - 1;
  }

  lemma MultiplyStep(n: int, w: int)
    ensures n * w == (n - 1) * w + w
  {
  }

  /** At most |members| * 2^(|members| - 1) states exist: an end, and any of the other members. */
  lemma {:induction false} StateCount(seen: set<State>, ends: set<Signal>, members: set<Signal>)
    requires ends <= members && members != {}
    requires forall s <- seen :: s.0 in ends && s.0 in s.1 && s.1 <= members
    ensures |seen| <= |ends| * Pow2(|members| - 1)
    decreases |ends|
  {
    if ends != {} {
      var x :| x in ends;
      var here, there := set s | s in seen && s.0 == x, set s | s in seen && s.0 != x;
      StateCount(there, ends - {x}, members);
      StatesEndingIn(here, members, x);
      MultiplyStep(|ends|, Pow2(|members| - 1));
      assert seen == here + there && here !! there;
    }
  }

  lemma {:induction false} ProjectionCount(here: set<State>, x: Signal)
    requires forall s <- here :: s.0 == x
    ensures |here| == |VisitedSets(here)|
    decreases |here|
  {
    if here != {} {
      var s :| s in here;
      var rest := here - {s};
      ProjectionCount(rest, x);
      assert VisitedSets(here) == VisitedSets(rest) + {s.1};
    }
  }

  /** Components of at most twelve signals fit the budget. */
  lemma BudgetSuffices(g: Graph, members: set<Signal>, sensitivity: set<(Signal, Signal)>)
    requires |members| <= 12
    ensures FitsBudget(g, members, sensitivity)
  {
    forall states: set<State> | AreLapStates(g, members, sensitivity, states)
      ensures |states| <= StateLimit(members)
    {
      forall s | s in states
        ensures s.0 in s.1 && s.1 <= members
      {
        LapStateInside(g, members, sensitivity, s);
      }
      if members == {} {
        assert states == {};
      } else {
        StateCount(states, members, members);
        PowersTo12(|members| - 1);
      }
    }
  }

  lemma LapStateInside(g: Graph, members: set<Signal>, sensitivity: set<(Signal, Signal)>, s: State)
    requires IsLapState(g, members, sensitivity, s)
    ensures s.0 in s.1 && s.1 <= members
  {
    var p :| IsLap(g, members, sensitivity, p) && (End(p), Visited(p)) == s;
    assert p[|p| - 1] in Visited(p);
  }

  /** Within the budget a survey has missed nothing, not even one that stopped at the limit. */
  lemma SurveyIsComplete(g: Graph, members: set<Signal>, sensitivity: set<(Signal, Signal)>, weights: Weights,
                         seen: set<State>, best: int)
    requires IsSurvey(g, members, sensitivity, weights, seen, best) && FitsBudget(g, members, sensitivity)
    requires StateDetermined(g, members, sensitivity, weights)
    ensures forall p :: IsLap(g, members, sensitivity, p) ==> LapWeight(weights, p) <= best
  {
    hide StateDetermined, IsLap, IsLapState;
    forall p | IsLap(g, members, sensitivity, p)
      ensures LapWeight(weights, p) <= best
    {
      LapIsNotEmpty(g, members, sensitivity, p);
      var s := (End(p), Visited(p));
      LapHasState(g, members, sensitivity, p);
      OneMore(g, members, sensitivity, seen, s);
    }
  }

  lemma OneMore(g: Graph, members: set<Signal>, sensitivity: set<(Signal, Signal)>, seen: set<State>, s: State)
    requires AreLapStates(g, members, sensitivity, seen) && IsLapState(g, members, sensitivity, s)
    ensures AreLapStates(g, members, sensitivity, seen + {s}) && |seen + {s}| == |seen| + if s in seen then 0 else 1
  {
    assert s in seen ==> seen + {s} == seen;
  }

  lemma LapIsNotEmpty(g: Graph, members: set<Signal>, sensitivity: set<(Signal, Signal)>, p: seq<Signal>)
    requires IsLap(g, members, sensitivity, p)
    ensures p != []
  {
  }

  lemma LapHasState(g: Graph, members: set<Signal>, sensitivity: set<(Signal, Signal)>, p: seq<Signal>)
    requires p != [] && IsLap(g, members, sensitivity, p)
    ensures IsLapState(g, members, sensitivity, (End(p), Visited(p)))
  {
  }

  lemma PowersTo12(n: nat)
    requires n <= 11
    ensures (n + 1) * Pow2(n) < Max(10000, (n + 1) * 4096)
  {
    assert Pow2(3) == 8 && Pow2(6) == 8 * Pow2(3) && Pow2(9) == 8 * Pow2(6);
  }

  /** The best weight of a lap found within the limit. It is the maximum when the laps fit the budget and their weight
      depends on end and visited set only. */
  method BoundedInternalDepth(g: Graph, members: set<Signal>, sensitivity: set<(Signal, Signal)>, weights: Weights)
    returns (best: int)
    ensures members == {} ==> best == 0
    ensures members != {} ==> exists p :: IsLap(g, members, sensitivity, p) && LapWeight(weights, p) == best
    ensures members != {} ==> exists seen: set<State> :: IsSurvey(g, members, sensitivity, weights, seen, best)
    ensures FitsBudget(g, members, sensitivity) && StateDetermined(g, members, sensitivity, weights) ==>
              forall p :: IsLap(g, members, sensitivity, p) ==> LapWeight(weights, p) <= best
  {
    hide AllGenuine, Covered, StateDetermined, IsLap, AreLapStates, FitsBudget, IsSurvey;
    best := 0;
    if members == {} {
      EmptyHasNoLap(g, members, sensitivity);
      return 0;
    }
    SomeLap(g, members, sensitivity, weights);
    var stack := PushStarts(g, members, sensitivity, weights);
    var seen: set<State> := {};
    NoLapStates(g, members, sensitivity);
    var limit := Max(10000, |members| * 4096);
    while stack != [] && |seen| < limit
      invariant AllGenuine(g, members, sensitivity, weights, stack)
      invariant Covered(g, members, sensitivity, seen, stack)
      invariant Scored(g, members, sensitivity, weights, seen, best)
      invariant AreLapStates(g, members, sensitivity, seen) && |seen| <= limit
      decreases limit - |seen|, |stack|
    {
      ghost var before := stack;
      var e := stack[|stack| - 1];
      PopGenuine(g, members, sensitivity, weights, stack);
      stack := stack[..|stack| - 1];
      var state := (e.source, e.visited);
      if state !in seen {
        ExpandScores(g, members, sensitivity, weights, seen, best, e);
        best := Max(best, e.score);
        stack := PushExtensions(g, members, sensitivity, weights, stack, e);
        ExpandCovers(g, members, sensitivity, seen, before, stack);
        ExpandLapStates(g, members, sensitivity, weights, seen, e);
        seen := seen + {state};
      } else {
        ExpandCovers(g, members, sensitivity, seen, before, stack);
        assert seen + {state} == seen;
      }
    }
    WalkIsSurvey(g, members, sensitivity, weights, seen, stack, best);
    if FitsBudget(g, members, sensitivity) && StateDetermined(g, members, sensitivity, weights) {
      SurveyIsComplete(g, members, sensitivity, weights, seen, best);
    }
  }

  lemma NoLapStates(g: Graph, members: set<Signal>, sensitivity: set<(Signal, Signal)>)
    ensures AreLapStates(g, members, sensitivity, {})
  {
  }

  lemma ExpandLapStates(g: Graph, members: set<Signal>, sensitivity: set<(Signal, Signal)>, weights: Weights,
                        seen: set<State>, e: Entry)
    requires AreLapStates(g, members, sensitivity, seen) && Genuine(g, members, sensitivity, weights, e)
    ensures AreLapStates(g, members, sensitivity, seen + {(e.source, e.visited)})
  {
    hide IsLap;
    var p :| Witnesses(g, members, sensitivity, weights, e, p);
    LapIsNotEmpty(g, members, sensitivity, p);
    assert (End(p), Visited(p)) == (e.source, e.visited);
  }

  lemma WalkIsSurvey(g: Graph, members: set<Signal>, sensitivity: set<(Signal, Signal)>, weights: Weights,
                     seen: set<State>, stack: seq<Entry>, best: int)
    requires AreLapStates(g, members, sensitivity, seen) && Scored(g, members, sensitivity, weights, seen, best)
    requires Covered(g, members, sensitivity, seen, stack)
    requires |seen| <= StateLimit(members) && (stack == [] || |seen| == StateLimit(members))
    ensures IsSurvey(g, members, sensitivity, weights, seen, best)
  {
    hide AreLapStates, Scored, Covered;
    if stack == [] {
      forall s | IsLapState(g, members, sensitivity, s)
        ensures s in seen
      {
        var p :| IsLap(g, members, sensitivity, p) && (End(p), Visited(p)) == s;
        EveryLapIsSeen(g, members, sensitivity, seen, p);
      }
    }
  }

  lemma EmptyHasNoLap(g: Graph, members: set<Signal>, sensitivity: set<(Signal, Signal)>)
    requires members == {}
    ensures forall p :: !IsLap(g, members, sensitivity, p)
  {
    forall p
      ensures !IsLap(g, members, sensitivity, p)
    {
      assert p != [] ==> p[0] !in members;
    }
  }

  lemma SomeLap(g: Graph, members: set<Signal>, sensitivity: set<(Signal, Signal)>, weights: Weights)
    requires members != {}
    ensures exists p :: IsLap(g, members, sensitivity, p) && LapWeight(weights, p) == 0
  {
    var x :| x in members;
    assert IsLap(g, members, sensitivity, [x]) && LapWeight(weights, [x]) == 0;
  }

  lemma PopGenuine(g: Graph, members: set<Signal>, sensitivity: set<(Signal, Signal)>, weights: Weights,
                   stack: seq<Entry>)
    requires AllGenuine(g, members, sensitivity, weights, stack) && stack != []
    ensures AllGenuine(g, members, sensitivity, weights, stack[..|stack| - 1])
    ensures Genuine(g, members, sensitivity, weights, stack[|stack| - 1])
  {
  }

  /** All value edges inside the component weigh `w`. */
  ghost predicate EqualWeights(g: Graph, members: set<Signal>, sensitivity: set<(Signal, Signal)>, weights: Weights,
                               w: int)
  {
    forall a, b :: a in members && b in ValueTargets(g, members, sensitivity, a) ==> WeightOf(weights, a, b) == w
  }

  /** Equal internal weights make the weight of a lap a matter of how many signals it visits. */
  lemma EqualWeightsDetermine(g: Graph, members: set<Signal>, sensitivity: set<(Signal, Signal)>, weights: Weights,
                              w: int)
    requires EqualWeights(g, members, sensitivity, weights, w)
    ensures StateDetermined(g, members, sensitivity, weights)
  {
    forall p, q | IsLap(g, members, sensitivity, p) && IsLap(g, members, sensitivity, q) && Visited(p) == Visited(q)
      ensures LapWeight(weights, p) == LapWeight(weights, q)
    {
      LapWeightCounts(g, members, sensitivity, weights, w, p);
      LapWeightCounts(g, members, sensitivity, weights, w, q);
      VisitedSize(p);
      VisitedSize(q);
    }
  }

  lemma {:induction false} VisitedSize(p: seq<Signal>)
    requires forall i, j :: 0 <= i < j < |p| ==> p[i] != p[j]
    ensures |Visited(p)| == |p|
    decreases |p|
  {
    if p != [] {
      var q := p[..|p| - 1];
      VisitedSize(q);
      assert Visited(p) == Visited(q) + {End(p)};
    }
  }

  lemma {:induction false} LapWeightCounts(g: Graph, members: set<Signal>, sensitivity: set<(Signal, Signal)>,
                                           weights: Weights, w: int, p: seq<Signal>)
    requires EqualWeights(g, members, sensitivity, weights, w)
    requires IsLap(g, members, sensitivity, p)
    ensures LapWeight(weights, p) == (|p| - 1) * w
    decreases |p|
  {
    if |p| > 1 {
      var q := p[..|p| - 1];
      LapFront(g, members, sensitivity, p);
      LapWeightCounts(g, members, sensitivity, weights, w, q);
      LastStepWeighs(g, members, sensitivity, weights, w, q, End(p));
      MultiplyStep(|p| - 1, w);
    }
  }

  lemma LastStepWeighs(g: Graph, members: set<Signal>, sensitivity: set<(Signal, Signal)>, weights: Weights, w: int,
                       q: seq<Signal>, b: Signal)
    requires EqualWeights(g, members, sensitivity, weights, w) && IsLap(g, members, sensitivity, q)
    requires b in ValueTargets(g, members, sensitivity, End(q))
    ensures WeightOf(weights, End(q), b) == w
  {
    assert q[|q| - 1] in members;
  }
}
