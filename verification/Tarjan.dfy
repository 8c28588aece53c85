/** The recursive strongly-connected-component search. */
module Tarjan {
  import opened Arithmetic
  import opened Collections
  import opened Digraphs

  /** The part of the search state that the correctness argument talks about. */
  datatype Walk = Walk(indices: map<Signal, int>, counter: int, onStack: set<Signal>,
                       components: seq<seq<Signal>>)

  ghost predicate EmittedBy(components: seq<seq<Signal>>, last: int, x: Signal) {
    exists i :: 0 <= i <= last && i < |components| && x in components[i]
  }

  ghost predicate Emitted(components: seq<seq<Signal>>, x: Signal) {
    EmittedBy(components, |components| - 1, x)
  }

  /** Numbers are handed out in visiting order and are distinct; the visited signals are exactly
      those on the stack together with those already emitted. */
  ghost predicate Numbered(w: Walk) {
    && (forall x <- w.indices :: 0 <= w.indices[x] < w.counter)
    && (forall x, y :: x in w.indices && y in w.indices && w.indices[x] == w.indices[y] ==> x == y)
    && (forall x <- w.indices :: x in w.onStack || Emitted(w.components, x))
    && (forall x <- w.onStack :: x in w.indices && !Emitted(w.components, x))
    && (forall x :: Emitted(w.components, x) ==> x in w.indices)
  }

  ghost predicate StackReaches(g: Graph, w: Walk)
    requires Numbered(w)
  {
    forall a, b :: a in w.onStack && b in w.onStack && w.indices[a] <= w.indices[b] ==> Reach(g, a, b)
  }

  /** `active` holds the signals whose visit has begun and not returned: each stacked signal gets
      back to one of them that is no younger. */
  ghost predicate ReturnsTo(g: Graph, w: Walk, active: set<Signal>, y: Signal)
    requires Numbered(w) && y in w.onStack
  {
    exists x :: x in active && x in w.onStack && w.indices[x] <= w.indices[y] && Reach(g, y, x)
  }

  ghost predicate StackReturns(g: Graph, w: Walk, active: set<Signal>)
    requires Numbered(w)
  {
    && active <= w.onStack
    && (forall y {:trigger ReturnsTo(g, w, active, y)} :: y in w.onStack ==> ReturnsTo(g, w, active, y))
  }

  ghost predicate FinishedAreClosed(g: Graph, w: Walk, active: set<Signal>) {
    forall a, b :: a in w.indices && a !in active && Edge(g, a, b) ==> b in w.indices
  }

  /** A non-empty list of signals, without repetition, that all reach each other. */
  ghost predicate Strong(g: Graph, component: seq<Signal>) {
    && component != []
    && Distinct(component)
    && (forall a, b :: a in component && b in component ==> Reach(g, a, b))
  }

  ghost predicate Apart(components: seq<seq<Signal>>) {
    forall i, j, x :: 0 <= i < |components| && 0 <= j < |components| && x in components[i] && x in components[j]
      ==> i == j
  }

  /** Edges never lead from a component to one that is emitted later. */
  ghost predicate TargetsFirst(g: Graph, components: seq<seq<Signal>>) {
    forall i, a, b :: 0 <= i < |components| && a in components[i] && Edge(g, a, b) ==> EmittedBy(components, i, b)
  }

  ghost predicate GoodComponents(g: Graph, components: seq<seq<Signal>>) {
    && (forall i :: 0 <= i < |components| ==> Strong(g, components[i]))
    && Apart(components)
    && TargetsFirst(g, components)
  }

  ghost predicate Inv(g: Graph, w: Walk, active: set<Signal>) {
    && Numbered(w)
    && w.indices.Keys <= NodesOf(g)
    && StackReaches(g, w)
    && StackReturns(g, w, active)
    && FinishedAreClosed(g, w, active)
    && GoodComponents(g, w.components)
  }

  lemma InvFacts(g: Graph, w: Walk, active: set<Signal>)
    requires Inv(g, w, active)
    ensures Numbered(w) && active <= w.onStack && w.indices.Keys <= NodesOf(g)
  {
  }

  /** `x` reaches a stacked signal numbered `low`. */
  ghost predicate LeadsDown(g: Graph, w: Walk, x: Signal, low: int)
    requires Numbered(w)
  {
    exists y :: y in w.onStack && w.indices[y] == low && Reach(g, x, y)
  }

  /** No edge from a stacked signal numbered `from` or more to one numbered below `mark` goes below `low`. */
  ghost predicate SeesNoLower(g: Graph, w: Walk, from: int, mark: int, low: int)
    requires Numbered(w)
  {
    forall a, b :: a in w.onStack && b in w.onStack && Edge(g, a, b) && w.indices[a] >= from && w.indices[b] < mark
      ==> low <= w.indices[b]
  }

  /** What a finished visit of `x`, which was given the number `mark`, leaves behind: either everything
      from `mark` upwards has been emitted, or `x` is still stacked and leads below itself. */
  ghost predicate LowlinkOk(g: Graph, w: Walk, mark: int, x: Signal, low: int)
    requires Numbered(w)
  {
    && ((low >= mark && forall y <- w.onStack :: w.indices[y] < mark) || (low < mark && LeadsDown(g, w, x, low)))
    && SeesNoLower(g, w, mark, mark, low)
  }

  lemma PushKeepsInv(g: Graph, w: Walk, active: set<Signal>, x: Signal)
    requires Inv(g, w, active)
    requires x in NodesOf(g) && x !in w.indices
    requires forall y <- active :: Reach(g, y, x)
    requires w.counter >= 0
    ensures Inv(g, Walk(w.indices[x := w.counter], w.counter + 1, w.onStack + {x}, w.components), active + {x})
  {
    var v := Walk(w.indices[x := w.counter], w.counter + 1, w.onStack + {x}, w.components);
    assert Numbered(v);
    ReachSelf(g, x);
    forall a {:trigger Reach(g, a, x)} | a in w.onStack
      ensures Reach(g, a, x)
    {
      assert ReturnsTo(g, w, active, a);
      var y :| y in active && y in w.onStack && w.indices[y] <= w.indices[a] && Reach(g, a, y);
      ReachTrans(g, a, y, x);
    }
    forall a {:trigger ReturnsTo(g, v, active + {x}, a)} | a in w.onStack
      ensures ReturnsTo(g, v, active + {x}, a)
    {
      assert ReturnsTo(g, w, active, a);
    }
    assert ReturnsTo(g, v, active + {x}, x);
  }

  /** A signal that used to get back to `x` gets back to whatever `x` itself gets back to. */
  lemma Redirect(g: Graph, w: Walk, active: set<Signal>, x: Signal, t: Signal, y: Signal)
    requires Numbered(w) && x in w.onStack && y in w.onStack && t in w.onStack
    requires t in active && w.indices[t] < w.indices[x] && Reach(g, x, t)
    requires ReturnsTo(g, w, active + {x}, y)
    ensures ReturnsTo(g, w, active, y)
  {
    var u :| u in active + {x} && u in w.onStack && w.indices[u] <= w.indices[y] && Reach(g, y, u);
    if u == x {
      ReachTrans(g, y, x, t);
    } else {
      assert u in active;
    }
  }

  /** A visit that still leads below itself ends with `x` as an ordinary stacked signal. */
  lemma RetireReturns(g: Graph, w: Walk, active: set<Signal>, x: Signal, low: int)
    requires Numbered(w) && StackReturns(g, w, active + {x})
    requires x !in active && x in w.onStack
    requires low < w.indices[x] && LeadsDown(g, w, x, low)
    ensures StackReturns(g, w, active)
  {
    var z :| z in w.onStack && w.indices[z] == low && Reach(g, x, z);
    assert ReturnsTo(g, w, active + {x}, z);
    var t :| t in active + {x} && t in w.onStack && w.indices[t] <= w.indices[z] && Reach(g, z, t);
    ReachTrans(g, x, z, t);
    forall y {:trigger ReturnsTo(g, w, active, y)} | y in w.onStack
      ensures ReturnsTo(g, w, active, y)
    {
      assert ReturnsTo(g, w, active + {x}, y);
      Redirect(g, w, active, x, t, y);
    }
  }

  lemma RetireKeepsInv(g: Graph, w: Walk, active: set<Signal>, x: Signal, low: int)
    requires Inv(g, w, active + {x}) && x !in active
    requires forall b :: Edge(g, x, b) ==> b in w.indices
    requires low < w.indices[x] && LeadsDown(g, w, x, low)
    ensures Inv(g, w, active)
  {
    assert x in active + {x};
    RetireReturns(g, w, active, x, low);
    assert FinishedAreClosed(g, w, active);
  }

  /** `component` lists the stacked signals numbered like `x` or higher. */
  ghost predicate IsSegment(w: Walk, x: Signal, component: seq<Signal>)
    requires Numbered(w) && x in w.onStack
  {
    && Distinct(component)
    && (forall y :: y in component <==> y in w.onStack && w.indices[y] >= w.indices[x])
  }

  /** The stack proper lists the stacked signals by increasing number. */
  ghost predicate StackMatches(indices: map<Signal, int>, onStack: set<Signal>, stack: seq<Signal>) {
    && (forall x :: x in onStack <==> x in stack)
    && SortedBy(indices, stack)
  }

  ghost predicate SortedBy(indices: map<Signal, int>, stack: seq<Signal>) {
    && (forall x :: x in stack ==> x in indices)
    && (forall i, j :: 0 <= i < j < |stack| ==> indices[stack[i]] < indices[stack[j]])
  }

  ghost predicate ReversedFrom(stack: seq<Signal>, k: int, component: seq<Signal>) {
    && 0 <= k < |stack| && |component| == |stack| - k
    && (forall i {:trigger component[i]} :: 0 <= i < |component| ==> component[i] == stack[|stack| - 1 - i])
  }

  lemma ReversedMembers(indices: map<Signal, int>, stack: seq<Signal>, k: int, component: seq<Signal>, y: Signal)
    requires SortedBy(indices, stack) && ReversedFrom(stack, k, component)
    ensures y in component <==> y in stack && indices[y] >= indices[stack[k]]
    ensures y in stack[..k] <==> y in stack && indices[y] < indices[stack[k]]
  {
    if y in component {
      var i :| 0 <= i < |component| && component[i] == y;
      assert stack[|stack| - 1 - i] == y;
    }
    if y in stack {
      var j :| 0 <= j < |stack| && stack[j] == y;
      if j >= k {
        assert component[|stack| - 1 - j] == y;
      } else {
        assert stack[..k][j] == y;
      }
    }
  }

  lemma StackPosition(w: Walk, stack: seq<Signal>, x: Signal) returns (k: int)
    requires StackMatches(w.indices, w.onStack, stack) && x in w.onStack
    ensures 0 <= k < |stack| && stack[k] == x
    ensures Distinct(stack)
    ensures forall y :: y in w.onStack <==> y in stack
  {
    k :| 0 <= k < |stack| && stack[k] == x;
  }

  /** After the segment of `x` is gone nothing numbered from `x` upwards is left. */
  lemma EmittedLow(g: Graph, w: Walk, x: Signal, components: seq<seq<Signal>>)
    requires Numbered(w) && x in w.onStack
    requires Numbered(w.(onStack := Below(w, x), components := components))
    ensures LowlinkOk(g, w.(onStack := Below(w, x), components := components), w.indices[x], x, w.indices[x])
  {
  }

  /** Reversing the top of a stack sorted by number gives the segment from `stack[k]` upwards. */
  lemma PoppedIsSegment(w: Walk, stack: seq<Signal>, k: int, component: seq<Signal>, rest: set<Signal>)
    requires Numbered(w) && StackMatches(w.indices, w.onStack, stack)
    requires ReversedFrom(stack, k, component)
    requires forall y :: y in rest <==> y in stack[..k]
    ensures IsSegment(w, stack[k], component)
    ensures rest == Below(w, stack[k])
    ensures StackMatches(w.indices, Below(w, stack[k]), stack[..k])
  {
    forall y {
      ReversedMembers(w.indices, stack, k, component, y);
    }
    forall i, j | 0 <= i < j < |component|
      ensures component[i] != component[j]
    {
      assert w.indices[stack[|stack| - 1 - j]] < w.indices[stack[|stack| - 1 - i]];
    }
  }

  lemma SegmentIsStrong(g: Graph, w: Walk, active: set<Signal>, x: Signal, component: seq<Signal>)
    requires Inv(g, w, active + {x})
    requires forall y <- active :: w.indices[y] < w.indices[x]
    requires IsSegment(w, x, component)
    ensures Strong(g, component)
  {
    assert x in component;
    forall a, b | a in component && b in component
      ensures Reach(g, a, b)
    {
      assert ReturnsTo(g, w, active + {x}, a);
      var t :| t in active + {x} && t in w.onStack && w.indices[t] <= w.indices[a] && Reach(g, a, t);
      ReachTrans(g, a, t, x);
      ReachTrans(g, a, x, b);
    }
  }

  /** When `x` is its own lowlink, the segment above it has no edge that escapes downwards. */
  lemma SegmentIsClosed(g: Graph, w: Walk, active: set<Signal>, x: Signal, component: seq<Signal>)
    requires Inv(g, w, active + {x})
    requires forall y <- active :: w.indices[y] < w.indices[x]
    requires forall b :: Edge(g, x, b) ==> b in w.indices
    requires SeesNoLower(g, w, w.indices[x], w.indices[x], w.indices[x])
    requires IsSegment(w, x, component)
    ensures TargetsFirst(g, w.components + [component])
  {
    var cs := w.components + [component];
    forall i, a, b | 0 <= i < |cs| && a in cs[i] && Edge(g, a, b)
      ensures EmittedBy(cs, i, b)
    {
      if i < |w.components| {
        assert a in w.components[i];
        var j :| 0 <= j <= i && j < |w.components| && b in w.components[j];
        assert b in cs[j];
      } else {
        assert a in w.onStack && b in w.indices;
        if b in w.onStack {
          assert b in cs[i];
        } else {
          var j :| 0 <= j <= |w.components| - 1 && j < |w.components| && b in w.components[j];
          assert b in cs[j];
        }
      }
    }
  }

  lemma EmittedSnoc(components: seq<seq<Signal>>, component: seq<Signal>, y: Signal)
    ensures Emitted(components + [component], y) <==> Emitted(components, y) || y in component
  {
    var cs := components + [component];
    if Emitted(components, y) {
      var i :| 0 <= i <= |components| - 1 && i < |components| && y in components[i];
      assert y in cs[i];
    }
    if y in component {
      assert y in cs[|components|];
    }
  }

  ghost function Below(w: Walk, x: Signal): set<Signal>
    requires Numbered(w) && x in w.onStack
  {
    set y | y in w.onStack && w.indices[y] < w.indices[x]
  }

  /** Emitting the segment from `x` upwards keeps the invariant when `x` is its own lowlink. */
  lemma EmitKeepsApart(g: Graph, w: Walk, active: set<Signal>, x: Signal, component: seq<Signal>)
    requires Inv(g, w, active + {x}) && x in w.onStack && IsSegment(w, x, component)
    ensures Apart(w.components + [component])
  {
    forall i, y | 0 <= i < |w.components| && y in w.components[i]
      ensures y !in component
    {
      assert Emitted(w.components, y);
    }
  }

  lemma EmitKeepsInv(g: Graph, w: Walk, active: set<Signal>, x: Signal, component: seq<Signal>)
    requires Inv(g, w, active + {x}) && x !in active
    requires forall y <- active :: w.indices[y] < w.indices[x]
    requires forall b :: Edge(g, x, b) ==> b in w.indices
    requires SeesNoLower(g, w, w.indices[x], w.indices[x], w.indices[x])
    requires IsSegment(w, x, component)
    ensures Inv(g, w.(onStack := Below(w, x), components := w.components + [component]), active)
  {
    var v := w.(onStack := Below(w, x), components := w.components + [component]);
    SegmentIsStrong(g, w, active, x, component);
    SegmentIsClosed(g, w, active, x, component);
    forall y {
      EmittedSnoc(w.components, component, y);
    }
    assert Numbered(v);
    EmitKeepsApart(g, w, active, x, component);
    forall y {:trigger ReturnsTo(g, v, active, y)} | y in v.onStack
      ensures ReturnsTo(g, v, active, y)
    {
      assert ReturnsTo(g, w, active + {x}, y);
    }
  }

  /** Nothing settled in the earlier of two moments has changed by the later one; what is newly on
      the stack is numbered later. */
  ghost predicate Grew(w: Walk, lows: map<Signal, int>, w': Walk, lows': map<Signal, int>) {
    && w.counter <= w'.counter
    && w.onStack <= w'.onStack
    && w.components <= w'.components
    && (forall y <- w.indices :: y in w'.indices && w'.indices[y] == w.indices[y])
    && (forall y <- lows :: y in lows' && lows'[y] == lows[y])
    && (forall y <- w'.onStack :: y in w.onStack || (y in w'.indices && w'.indices[y] >= w.counter))
  }

  lemma GrewTrans(w0: Walk, lows0: map<Signal, int>, w1: Walk, lows1: map<Signal, int>,
                  w2: Walk, lows2: map<Signal, int>)
    requires Grew(w0, lows0, w1, lows1) && Grew(w1, lows1, w2, lows2)
    ensures Grew(w0, lows0, w2, lows2)
  {
  }

  lemma GrewLow(w: Walk, lows: map<Signal, int>, w': Walk, lows': map<Signal, int>, x: Signal)
    requires Grew(w, lows, w', lows') && x in lows && x in w.indices
    ensures x in lows' && lows'[x] == lows[x]
    ensures x in w'.indices && w'.indices[x] == w.indices[x]
    ensures Grew(w, map[], w', lows')
  {
  }

  lemma GrewKeeps(w: Walk, lows: map<Signal, int>, w': Walk, lows': map<Signal, int>)
    requires Grew(w, lows, w', lows')
    ensures forall y <- w.indices :: y in w'.indices && w'.indices[y] == w.indices[y]
  {
  }

  lemma GrewEmit(w: Walk, lows: map<Signal, int>, w': Walk, lows': map<Signal, int>, x: Signal,
                 components: seq<seq<Signal>>)
    requires Grew(w, lows, w', lows') && Numbered(w) && Numbered(w')
    requires x in w'.onStack && w'.indices[x] == w.counter
    requires w'.components <= components
    ensures Grew(w, lows, w'.(onStack := Below(w', x), components := components), lows')
  {
  }

  lemma PushKeepsRest(g: Graph, w: Walk, active: set<Signal>, stack: seq<Signal>, lows: map<Signal, int>, x: Signal)
    requires Inv(g, w, active) && x !in w.indices && lows.Keys == w.indices.Keys
    requires StackMatches(w.indices, w.onStack, stack)
    ensures StackMatches(w.indices[x := w.counter], w.onStack + {x}, stack + [x])
    ensures Grew(w, lows, Walk(w.indices[x := w.counter], w.counter + 1, w.onStack + {x}, w.components),
                 lows[x := w.counter])
    ensures lows[x := w.counter].Keys == w.indices[x := w.counter].Keys
  {
    hide Inv, StackMatches, Grew;
    InvFacts(g, w, active);
    PushKeepsStack(w.indices, w.onStack, stack, x, w.counter);
    PushGrows(w, lows, x);
  }

  lemma PushKeepsStack(indices: map<Signal, int>, onStack: set<Signal>, stack: seq<Signal>, x: Signal, counter: int)
    requires StackMatches(indices, onStack, stack) && x !in indices && forall y <- indices :: indices[y] < counter
    ensures StackMatches(indices[x := counter], onStack + {x}, stack + [x])
  {
    assert forall y :: y in stack + [x] <==> y in stack || y == x;
    forall i, j | 0 <= i < j < |stack + [x]|
      ensures indices[x := counter][(stack + [x])[i]] < indices[x := counter][(stack + [x])[j]]
    {
      assert (stack + [x])[i] == stack[i] && stack[i] in stack;
      if j < |stack| {
        assert (stack + [x])[j] == stack[j] && stack[j] in stack;
      }
    }
  }

  lemma PushGrows(w: Walk, lows: map<Signal, int>, x: Signal)
    requires x !in w.indices && x !in lows
    ensures Grew(w, lows, Walk(w.indices[x := w.counter], w.counter + 1, w.onStack + {x}, w.components),
                 lows[x := w.counter])
  {
  }

  lemma GrewSetLow(w: Walk, lows: map<Signal, int>, w': Walk, lows': map<Signal, int>, x: Signal, low: int)
    requires Grew(w, lows, w', lows') && x !in lows
    ensures Grew(w, lows, w', lows'[x := low])
  {
  }

  /** What the scan of `x`'s successors maintains: the targets outside `todo` are visited, and `low`
      is the lowlink that the edges scanned so far justify. */
  ghost predicate Scanned(g: Graph, w: Walk, x: Signal, todo: set<Signal>, low: int) {
    && Numbered(w)
    && x in w.onStack
    && todo <= Successors(g, x)
    && low <= w.indices[x]
    && LeadsDown(g, w, x, low)
    && SeesNoLower(g, w, w.indices[x] + 1, w.indices[x], low)
    && (forall b :: Edge(g, x, b) && b !in todo ==> b in w.indices)
    && (forall b :: Edge(g, x, b) && b !in todo && b in w.onStack ==> low <= w.indices[b])
  }

  lemma ScanOldTarget(g: Graph, w: Walk, x: Signal, todo: set<Signal>, low: int, target: Signal)
    requires Scanned(g, w, x, todo, low)
    requires target in todo && target in w.indices
    ensures Scanned(g, w, x, todo - {target}, if target in w.onStack then Min(low, w.indices[target]) else low)
  {
    ReachEdge(g, x, target);
  }

  /** A parent leads down wherever the smaller of its own and its child's lowlink says. */
  lemma FoldLeadsDown(g: Graph, before: Walk, after: Walk, x: Signal, todo: set<Signal>, low: int, target: Signal,
                      childLow: int, lows: map<Signal, int>)
    requires Scanned(g, before, x, todo, low) && Numbered(after) && Grew(before, map[], after, lows)
    requires target in todo && target in after.indices && after.indices[target] >= before.counter
    requires LowlinkOk(g, after, before.counter, target, childLow)
    ensures LeadsDown(g, after, x, Min(low, childLow))
  {
    if childLow < low {
      var z :| z in after.onStack && after.indices[z] == childLow && Reach(g, target, z);
      ReachEdge(g, x, target);
      ReachTrans(g, x, target, z);
    } else {
      var z :| z in before.onStack && before.indices[z] == low && Reach(g, x, z);
      assert z in after.onStack && after.indices[z] == low;
    }
  }

  /** Folding a child's lowlink into its parent's keeps the parent's lowlink meaningful. */
  lemma ScanNewTarget(g: Graph, before: Walk, after: Walk, x: Signal, todo: set<Signal>, low: int,
                      target: Signal, childLow: int, lows: map<Signal, int>)
    requires Scanned(g, before, x, todo, low)
    requires Numbered(after)
    requires Grew(before, map[], after, lows)
    requires target in todo && target in after.indices && after.indices[target] >= before.counter
    requires LowlinkOk(g, after, before.counter, target, childLow)
    ensures Scanned(g, after, x, todo - {target}, Min(low, childLow))
  {
    hide Reach, LeadsDown;
    FoldLeadsDown(g, before, after, x, todo, low, target, childLow, lows);
    forall b | Edge(g, x, b) && b !in todo - {target} && b in after.onStack
      ensures Min(low, childLow) <= after.indices[b]
    {
      if b != target {
        assert b in before.indices;
      }
    }
  }

  lemma ScanStart(g: Graph, w: Walk, x: Signal)
    requires Numbered(w) && x in w.onStack && w.indices[x] == w.counter - 1
    ensures Scanned(g, w, x, Successors(g, x), w.indices[x])
  {
    ReachSelf(g, x);
  }

  lemma ScanEdge(g: Graph, w: Walk, x: Signal, todo: set<Signal>, low: int, target: Signal, active: set<Signal>)
    requires Scanned(g, w, x, todo, low) && target in todo
    requires forall y <- active :: Reach(g, y, x)
    ensures target in NodesOf(g)
    ensures forall y <- active + {x} :: Reach(g, y, target)
  {
    ReachEdge(g, x, target);
    forall y <- active { ReachTrans(g, y, x, target); }
  }

  lemma ScanDone(g: Graph, w: Walk, x: Signal, low: int)
    requires Scanned(g, w, x, {}, low)
    ensures Numbered(w) && x in w.onStack
    ensures low <= w.indices[x] && LeadsDown(g, w, x, low)
    ensures forall b :: Edge(g, x, b) ==> b in w.indices
    ensures SeesNoLower(g, w, w.indices[x], w.indices[x], low)
    ensures low < w.indices[x] ==> LowlinkOk(g, w, w.indices[x], x, low)
  {
  }

  class Search {
    const graph: Graph
    var indexCounter: int
    var indices: map<Signal, int>
    var lowlink: map<Signal, int>
    var stack: seq<Signal>
    var onStack: set<Signal>
    var components: seq<seq<Signal>>

    constructor (graph: Graph)
      ensures this.graph == graph
      ensures indices == map[] && lowlink == map[] && stack == [] && onStack == {} && components == []
      ensures indexCounter == 0
    {
      this.graph := graph;
      indexCounter := 0;
      indices := map[];
      lowlink := map[];
      stack := [];
      onStack := {};
      components := [];
    }

    ghost function View(): Walk
      reads this
    {
      Walk(indices, indexCounter, onStack, components)
    }

    ghost predicate Valid(active: set<Signal>)
      reads this
    {
      && indexCounter >= 0
      && lowlink.Keys == indices.Keys
      && StackMatches(indices, onStack, stack)
      && Inv(graph, View(), active)
    }

    /** Numbers `node` and puts it on the stack. */
    method Enter(node: Signal, ghost active: set<Signal>)
      requires Valid(active)
      requires node in NodesOf(graph) && node !in indices
      requires forall y <- active :: Reach(graph, y, node)
      modifies this
      ensures Valid(active + {node})
      ensures var w := old(View());
              View() == Walk(w.indices[node := w.counter], w.counter + 1, w.onStack + {node}, w.components)
      ensures lowlink == old(lowlink)[node := old(indexCounter)]
      ensures Grew(old(View()), old(lowlink), View(), lowlink)
    {
      hide Inv, Numbered, StackMatches, Grew, NodesOf;
      PushKeepsInv(graph, View(), active, node);
      PushKeepsRest(graph, View(), active, stack, lowlink, node);
      indices := indices[node := indexCounter];
      lowlink := lowlink[node := indexCounter];
      indexCounter := indexCounter + 1;
      stack := stack + [node];
      onStack := onStack + {node};
    }

    method Lower(node: Signal, candidate: int, ghost active: set<Signal>)
      requires Valid(active) && node in lowlink
      modifies this`lowlink
      ensures Valid(active) && View() == old(View())
      ensures lowlink == old(lowlink)[node := Min(old(lowlink)[node], candidate)]
    {
      hide Inv, StackMatches;
      lowlink := lowlink[node := Min(lowlink[node], candidate)];
    }

    method Visit(node: Signal, ghost active: set<Signal>)
      requires Valid(active)
      requires node in NodesOf(graph) && node !in indices
      requires forall y <- active :: Reach(graph, y, node)
      modifies this
      ensures Valid(active)
      ensures Grew(old(View()), old(lowlink), View(), lowlink)
      ensures node in indices && indices[node] == old(indexCounter)
      ensures LowlinkOk(graph, View(), old(indexCounter), node, lowlink[node])
      decreases NodesOf(graph) - indices.Keys
    {
      hide Inv, Scanned, StackMatches, LeadsDown, SeesNoLower, Reach, Grew, NodesOf, Successors, Edge, LowlinkOk;
      InvFacts(graph, View(), active);
      Enter(node, active);
      InvFacts(graph, View(), active + {node});
      ScanStart(graph, View(), node);

      var todo := Successors(graph, node);
      while todo != {}
        invariant Valid(active + {node})
        invariant Grew(old(View()), old(lowlink), View(), lowlink)
        invariant node in indices && indices[node] == old(indexCounter) < indexCounter
        invariant Scanned(graph, View(), node, todo, lowlink[node])
        decreases todo
      {
        ghost var before := View();
        InvFacts(graph, before, active + {node});
        GrewKeeps(old(View()), old(lowlink), before, lowlink);
        ghost var low, lows := lowlink[node], lowlink;
        var target :| target in todo;
        if target !in indices {
          ScanEdge(graph, before, node, todo, low, target, active);
          Visit(target, active + {node});
          ghost var after := View();
          var childLow := lowlink[target];
          GrewTrans(old(View()), old(lowlink), before, lows, after, lowlink);
          GrewLow(before, lows, after, lowlink, node);
          InvFacts(graph, after, active + {node});
          ScanNewTarget(graph, before, after, node, todo, low, target, childLow, lowlink);
          GrewSetLow(old(View()), old(lowlink), after, lowlink, node, Min(low, childLow));
          Lower(node, childLow, active + {node});
        } else {
          ScanOldTarget(graph, before, node, todo, low, target);
          if target in onStack {
            GrewSetLow(old(View()), old(lowlink), before, lowlink, node, Min(low, indices[target]));
            Lower(node, indices[target], active + {node});
          }
        }
        todo := todo - {target};
      }

      Leave(node, active, old(View()), old(lowlink));
    }

    /** Ends the visit of `node`, begun when the state was `w` and the lowlinks were `lows`. */
    method Leave(node: Signal, ghost active: set<Signal>, ghost w: Walk, ghost lows: map<Signal, int>)
      requires Valid(active + {node}) && Inv(graph, w, active) && node !in w.indices
      requires Grew(w, lows, View(), lowlink)
      requires node in indices && indices[node] == w.counter
      requires Scanned(graph, View(), node, {}, lowlink[node])
      modifies this`stack, this`onStack, this`components
      ensures Valid(active)
      ensures Grew(w, lows, View(), lowlink)
      ensures LowlinkOk(graph, View(), w.counter, node, lowlink[node])
    {
      hide Inv, Scanned, StackMatches, LeadsDown, SeesNoLower, Reach, Grew, NodesOf, Successors, Edge, LowlinkOk;
      ghost var full := View();
      InvFacts(graph, w, active);
      InvFacts(graph, full, active + {node});
      ScanDone(graph, full, node, lowlink[node]);
      GrewKeeps(w, lows, full, lowlink);
      if lowlink[node] == indices[node] {
        EmitComponent(node, active);
        GrewEmit(w, lows, full, lowlink, node, components);
      } else {
        RetireKeepsInv(graph, full, active, node, lowlink[node]);
      }
    }

    /** Pops the stack down to and including `node`. */
    method PopComponent(node: Signal, ghost k: int) returns (component: seq<Signal>)
      requires 0 <= k < |stack| && stack[k] == node
      requires Distinct(stack)
      requires forall x :: x in onStack <==> x in stack
      modifies this`stack, this`onStack
      ensures stack == old(stack)[..k]
      ensures forall x :: x in onStack <==> x in stack
      ensures ReversedFrom(old(stack), k, component)
    {
      component := [];
      while true
        invariant k < |stack| <= |old(stack)| && stack == old(stack)[..|stack|]
        invariant |component| == |old(stack)| - |stack|
        invariant forall i {:trigger component[i]} ::
                    0 <= i < |component| ==> component[i] == old(stack)[|old(stack)| - 1 - i]
        invariant forall x :: x in onStack <==> x in stack
        decreases |stack|
      {
        var target := stack[|stack| - 1];
        stack := stack[..|stack| - 1];
        onStack := onStack - {target};
        component := component + [target];
        if target == node {
          break;
        }
      }
    }

    /** Pops the component of `node`, which is its own lowlink, and emits it. */
    method EmitComponent(node: Signal, ghost active: set<Signal>)
      requires Valid(active + {node}) && node !in active
      requires node in onStack
      requires forall y <- active :: indices[y] < indices[node]
      requires forall b :: Edge(graph, node, b) ==> b in indices
      requires SeesNoLower(graph, View(), indices[node], indices[node], indices[node])
      modifies this`stack, this`onStack, this`components
      ensures Valid(active)
      ensures old(components) <= components
      ensures Numbered(old(View()))
      ensures LowlinkOk(graph, View(), indices[node], node, indices[node])
      ensures View() == old(View()).(onStack := Below(old(View()), node), components := components)
    {
      hide Inv, ReversedFrom, IsSegment, StackMatches, SeesNoLower, LowlinkOk, Below, Numbered, Edge;
      ghost var before, full := View(), stack;
      InvFacts(graph, before, active + {node});
      ghost var k := StackPosition(before, full, node);
      var component := PopComponent(node, k);
      PoppedIsSegment(before, full, k, component, onStack);
      EmitKeepsInv(graph, before, active, node, component);
      components := components + [component];
      assert View() == before.(onStack := Below(before, node), components := components);
      InvFacts(graph, View(), active);
      EmittedLow(graph, before, node, components);
    }
  }

  ghost predicate Together(components: seq<seq<Signal>>, a: Signal, b: Signal) {
    exists i :: 0 <= i < |components| && a in components[i] && b in components[i]
  }

  /** The component search over a whole dictionary, whose keys may be taken in any order. */
  method Components(graph: Graph) returns (components: seq<seq<Signal>>)
    ensures GoodComponents(graph, components)
    ensures forall x :: Emitted(components, x) <==> x in NodesOf(graph)
    ensures forall a, b :: a in NodesOf(graph) && b in NodesOf(graph) ==>
                             (Together(components, a, b) <==> MutualReach(graph, a, b))
  {
    var search := new Search(graph);
    var todo := graph.Keys;
    while todo != {}
      invariant search.graph == graph && search.Valid({})
      invariant todo <= graph.Keys
      invariant forall k <- graph.Keys :: k in todo || k in search.indices
      decreases todo
    {
      ghost var before, lows := search.View(), search.lowlink;
      var node :| node in todo;
      todo := todo - {node};
      if node !in search.indices {
        search.Visit(node, {});
        GrewKeeps(before, lows, search.View(), search.lowlink);
      }
    }
    components := search.components;
    EverythingIsEmitted(graph, search.View());
    forall a, b | a in NodesOf(graph) && b in NodesOf(graph)
      ensures Together(components, a, b) <==> MutualReach(graph, a, b)
    {
      TogetherIffMutual(graph, components, a, b);
    }
  }

  lemma NobodyToReturnTo(g: Graph, w: Walk, x: Signal)
    requires Numbered(w) && x in w.onStack
    ensures !ReturnsTo(g, w, {}, x)
  {
  }

  lemma EverythingIsEmitted(g: Graph, w: Walk)
    requires Inv(g, w, {})
    requires forall k <- g.Keys :: k in w.indices
    ensures forall x :: Emitted(w.components, x) <==> x in NodesOf(g)
  {
    forall x | x in w.onStack
      ensures false
    {
      NobodyToReturnTo(g, w, x);
    }
    forall x | x in NodesOf(g)
      ensures x in w.indices
    {
      if x !in g {
        var a, b :| a in g && b in g[a] && b == x;
        assert Edge(g, a, x);
      }
    }
  }

  /** The dictionary's signals are those its keys reach. */
  lemma NodesAreReachable(g: Graph, x: Signal)
    ensures x in NodesOf(g) <==> exists k :: k in g && Reach(g, k, x)
  {
    if x in g {
      ReachSelf(g, x);
    } else if x in NodesOf(g) {
      var a, b :| a in g && b in g[a] && b == x;
      ReachEdge(g, a, x);
    }
    if k :| k in g && Reach(g, k, x) {
      var p :| PathFromTo(g, p, k, x);
      var inside := iset n | n in NodesOf(g);
      PathStaysInside(g, inside, p);
    }
  }

  /** Walking along edges never leads to a component emitted later. */
  lemma ReachGoesEarlier(g: Graph, components: seq<seq<Signal>>, i: int, j: int, a: Signal, b: Signal)
    requires GoodComponents(g, components)
    requires 0 <= i < |components| && a in components[i]
    requires 0 <= j < |components| && b in components[j]
    requires Reach(g, a, b)
    ensures j <= i
  {
    var p :| PathFromTo(g, p, a, b);
    var inside := iset n | EmittedBy(components, i, n);
    forall n, m | n in inside && Edge(g, n, m)
      ensures m in inside
    {
      var k :| 0 <= k <= i && k < |components| && n in components[k];
      assert EmittedBy(components, k, m);
    }
    assert a in inside;
    PathStaysInside(g, inside, p);
  }

  lemma TogetherIffMutual(g: Graph, components: seq<seq<Signal>>, a: Signal, b: Signal)
    requires GoodComponents(g, components)
    requires Emitted(components, a) && Emitted(components, b)
    ensures Together(components, a, b) <==> MutualReach(g, a, b)
  {
    var i :| 0 <= i < |components| && a in components[i];
    var j :| 0 <= j < |components| && b in components[j];
    if MutualReach(g, a, b) {
      ReachGoesEarlier(g, components, i, j, a, b);
      ReachGoesEarlier(g, components, j, i, b, a);
    }
    assert i == j ==> Strong(g, components[i]);
  }
}
