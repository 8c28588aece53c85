/** The depth estimate for expressions, and why synthesis can achieve it by reassociating. */
module ExpressionDepth {
  import opened Arithmetic

  datatype Kind = And | Or | Xor | Xnor | Reduce(reduction: string) | Other(name: string)

  /** `cost` is what an operator outside the associative kinds is charged; a wire is charged nothing. */
  datatype Expr = Input(input: string) | Op(kind: Kind, cost: nat, children: seq<Expr>)

  predicate Binary(kind: Kind) {
    kind.And? || kind.Or? || kind.Xor? || kind.Xnor?
  }

  predicate Associative(kind: Kind) {
    Binary(kind) || kind.Reduce?
  }

  function Size(e: Expr): nat
    decreases e
  {
    match e
    case Input(_) => 1
    case Op(_, _, children) => 1 + SizeAll(children)
  }

  function SizeAll(es: seq<Expr>): nat
    decreases es
  {
    if es == [] then 0 else Size(es[0]) + SizeAll(es[1..])
  }

  lemma {:induction false} SizeAllAppend(es: seq<Expr>, fs: seq<Expr>)
    ensures SizeAll(es + fs) == SizeAll(es) + SizeAll(fs)
  {
    if es == [] {
      assert es + fs == fs;
    } else {
      assert (es + fs)[1..] == es[1..] + fs;
      SizeAllAppend(es[1..], fs);
    }
  }

  predicate IsKind(e: Expr, kind: Kind) {
    e.Op? && e.kind == kind
  }

  /** The operands of a maximal chain of one associative operator, in source order. */
  function AssociativeOperands(children: seq<Expr>, kind: Kind): (operands: seq<Expr>)
    ensures SizeAll(operands) <= SizeAll(children)
    decreases children
  {
    if children == [] then []
    else
      var child := children[0];
      var first := if IsKind(child, kind) then AssociativeOperands(child.children, kind) else [child];
      var rest := AssociativeOperands(children[1..], kind);
      SizeAllAppend(first, rest);
      first + rest
  }

  /** The least k with n <= 2^k. */
  function CeilLog2(n: nat): nat {
    if n <= 1 then 0 else 1 + CeilLog2((n + 1) / 2)
  }

  function ReductionDepth(operands: nat): nat {
    Max(1, CeilLog2(Max(2, operands)))
  }

  function Depth(e: Expr): nat
    decreases Size(e), 0
  {
    match e
    case Input(_) => 0
    case Op(kind, cost, children) =>
      if Associative(kind) then
        var operands := AssociativeOperands(children, kind);
        ReductionDepth(|operands|) + MaxDepth(operands)
      else
        cost + MaxDepth(children)
  }

  function MaxDepth(es: seq<Expr>): nat
    decreases SizeAll(es), 1 + |es|
  {
    if es == [] then 0 else Max(Depth(es[0]), MaxDepth(es[1..]))
  }

  /** What a tree costs as it stands: one level per associative operator. */
  function RawDepth(e: Expr): nat
    decreases e
  {
    match e
    case Input(_) => 0
    case Op(kind, cost, children) => (if Associative(kind) then 1 else cost) + MaxRawDepth(children)
  }

  function MaxRawDepth(es: seq<Expr>): nat
    decreases es
  {
    if es == [] then 0 else Max(RawDepth(es[0]), MaxRawDepth(es[1..]))
  }

  /** Binary operators have two operands; a reduction has one. */
  predicate WellFormed(e: Expr)
    decreases e
  {
    match e
    case Input(_) => true
    case Op(kind, _, children) =>
      && (Binary(kind) ==> |children| == 2)
      && (kind.Reduce? ==> |children| == 1)
      && AllWellFormed(children)
  }

  predicate AllWellFormed(es: seq<Expr>)
    decreases es
  {
    es == [] || (WellFormed(es[0]) && AllWellFormed(es[1..]))
  }

  /** A meaning for every operator over words of type V. */
  datatype Meaning<!V> = Meaning(and: (V, V) -> V, or: (V, V) -> V, xor: (V, V) -> V, xnor: (V, V) -> V,
                                 other: (Kind, seq<V>) -> V)
  {
    function Apply(kind: Kind, a: V, b: V): V
      requires Binary(kind)
    {
      match kind
      case And => and(a, b)
      case Or => or(a, b)
      case Xor => xor(a, b)
      case Xnor => xnor(a, b)
    }
  }

  ghost predicate IsAssociative<V(!new)>(m: Meaning<V>) {
    forall kind, a, b, c | Binary(kind) ::
      m.Apply(kind, m.Apply(kind, a, b), c) == m.Apply(kind, a, m.Apply(kind, b, c))
  }

  /** Applying the reduction to its own result changes nothing. */
  ghost predicate IsIdempotent<V(!new)>(m: Meaning<V>, kind: Kind) {
    forall v :: m.other(kind, [m.other(kind, [v])]) == m.other(kind, [v])
  }

  /** Every reduction that stands directly over the same reduction is idempotent. */
  ghost predicate Collapses<V(!new)>(m: Meaning<V>, e: Expr)
    decreases e
  {
    match e
    case Input(_) => true
    case Op(kind, _, children) =>
      && (kind.Reduce? && |children| == 1 && IsKind(children[0], kind) ==> IsIdempotent(m, kind))
      && CollapseAll(m, children)
  }

  ghost predicate CollapseAll<V(!new)>(m: Meaning<V>, es: seq<Expr>)
    decreases es
  {
    es == [] || (Collapses(m, es[0]) && CollapseAll(m, es[1..]))
  }

  function Eval<V>(m: Meaning<V>, inputs: string -> V, e: Expr): V
    requires WellFormed(e)
    decreases e
  {
    match e
    case Input(x) => inputs(x)
    case Op(kind, _, children) =>
      var values := EvalAll(m, inputs, children);
      if Binary(kind) then m.Apply(kind, values[0], values[1]) else m.other(kind, values)
  }

  function EvalAll<V>(m: Meaning<V>, inputs: string -> V, es: seq<Expr>): (values: seq<V>)
    requires AllWellFormed(es)
    ensures |values| == |es|
    decreases es
  {
    if es == [] then [] else [Eval(m, inputs, es[0])] + EvalAll(m, inputs, es[1..])
  }

  /** The balanced tree over a non-empty list of operands. */
  function BuildBalanced(kind: Kind, operands: seq<Expr>): Expr
    requires operands != []
    decreases |operands|
  {
    if |operands| == 1 then operands[0]
    else
      var half := (|operands| + 1) / 2;
      Op(kind, 1, [BuildBalanced(kind, operands[..half]), BuildBalanced(kind, operands[half..])])
  }

  lemma {:induction false} OperandsExist(children: seq<Expr>, kind: Kind)
    requires Binary(kind) && AllWellFormed(children) && children != []
    ensures |AssociativeOperands(children, kind)| >= |children|
    ensures AllWellFormed(AssociativeOperands(children, kind))
    decreases children
  {
    var child := children[0];
    if IsKind(child, kind) {
      OperandsExist(child.children, kind);
    }
    if |children| > 1 {
      OperandsExist(children[1..], kind);
    }
    WellFormedAppend(if IsKind(child, kind) then AssociativeOperands(child.children, kind) else [child],
                     AssociativeOperands(children[1..], kind));
  }

  lemma {:induction false} WellFormedAppend(es: seq<Expr>, fs: seq<Expr>)
    ensures AllWellFormed(es + fs) <==> AllWellFormed(es) && AllWellFormed(fs)
  {
    if es == [] {
      assert es + fs == fs;
    } else {
      assert (es + fs)[1..] == es[1..] + fs;
      WellFormedAppend(es[1..], fs);
    }
  }

  /** A reduction over a reduction over a reduction has one operand as well. */
  lemma {:induction false} OneOperand(children: seq<Expr>, kind: Kind)
    requires kind.Reduce? && |children| == 1 && AllWellFormed(children)
    ensures |AssociativeOperands(children, kind)| == 1 && AllWellFormed(AssociativeOperands(children, kind))
    decreases children
  {
    var child := children[0];
    assert children[1..] == [] && AssociativeOperands([], kind) == [];
    if IsKind(child, kind) {
      OneOperand(child.children, kind);
    }
  }

  /** Rebalances every chain of a binary associative operator, keeping the order of its operands, and collapses nested
      reductions. */
  function Balance(e: Expr): Expr
    requires WellFormed(e)
    decreases Size(e), 0
  {
    match e
    case Input(_) => e
    case Op(kind, cost, children) =>
      if Binary(kind) then
        OperandsExist(children, kind);
        BuildBalanced(kind, BalanceAll(AssociativeOperands(children, kind)))
      else if kind.Reduce? then
        OneOperand(children, kind);
        Op(kind, cost, BalanceAll(AssociativeOperands(children, kind)))
      else
        Op(kind, cost, BalanceAll(children))
  }

  function BalanceAll(es: seq<Expr>): (fs: seq<Expr>)
    requires AllWellFormed(es)
    ensures |fs| == |es|
    decreases SizeAll(es), 1 + |es|
  {
    if es == [] then [] else [Balance(es[0])] + BalanceAll(es[1..])
  }

  // ----- depth

  lemma {:induction false} CeilLog2Monotone(m: nat, n: nat)
    requires m <= n
    ensures CeilLog2(m) <= CeilLog2(n)
    decreases n
  {
    if m > 1 {
      CeilLog2Monotone((m + 1) / 2, (n + 1) / 2);
    }
  }

  lemma {:induction false} MaxRawDepthAppend(es: seq<Expr>, fs: seq<Expr>)
    ensures MaxRawDepth(es + fs) == Max(MaxRawDepth(es), MaxRawDepth(fs))
  {
    if es == [] {
      assert es + fs == fs;
    } else {
      assert (es + fs)[1..] == es[1..] + fs;
      MaxRawDepthAppend(es[1..], fs);
    }
  }

  lemma CeilLog2Halves(n: nat)
    requires n > 1
    ensures CeilLog2(n) == 1 + CeilLog2((n + 1) / 2) && n / 2 <= (n + 1) / 2 < n
  {
  }

  lemma PairDepth(kind: Kind, a: Expr, b: Expr)
    requires Binary(kind)
    ensures forall cost: nat :: RawDepth(Op(kind, cost, [a, b])) == 1 + Max(RawDepth(a), RawDepth(b))
  {
    assert [a, b][1..] == [b];
    assert MaxRawDepth([b]) == RawDepth(b);
  }

  lemma {:induction false} BalancedDepth(kind: Kind, operands: seq<Expr>)
    requires operands != [] && Binary(kind)
    ensures RawDepth(BuildBalanced(kind, operands)) <= CeilLog2(|operands|) + MaxRawDepth(operands)
    decreases |operands|
  {
    if |operands| == 1 {
      assert operands[1..] == [];
    } else {
      hide BuildBalanced, CeilLog2, RawDepth, MaxRawDepth;
      var half := (|operands| + 1) / 2;
      var l, r := operands[..half], operands[half..];
      BuildSplits(kind, operands);
      BalancedDepth(kind, l);
      BalancedDepth(kind, r);
      assert l + r == operands;
      MaxRawDepthAppend(l, r);
      CeilLog2Halves(|operands|);
      CeilLog2Monotone(|r|, half);
      PairDepth(kind, BuildBalanced(kind, l), BuildBalanced(kind, r));
    }
  }

  lemma BuildSplits(kind: Kind, operands: seq<Expr>)
    requires |operands| > 1
    ensures var half := (|operands| + 1) / 2;
            && 0 < half < |operands|
            && BuildBalanced(kind, operands) ==
               Op(kind, 1, [BuildBalanced(kind, operands[..half]), BuildBalanced(kind, operands[half..])])
  {
  }

  lemma {:induction false} BalanceDepth(e: Expr)
    requires WellFormed(e)
    ensures RawDepth(Balance(e)) <= Depth(e)
    decreases Size(e), 0
  {
    match e
    case Input(_) =>
    case Op(kind, cost, children) =>
      if Binary(kind) {
        OperandsExist(children, kind);
        var operands := AssociativeOperands(children, kind);
        BalanceAllDepth(operands);
        BalancedDepth(kind, BalanceAll(operands));
      } else if kind.Reduce? {
        OneOperand(children, kind);
        BalanceAllDepth(AssociativeOperands(children, kind));
      } else {
        BalanceAllDepth(children);
      }
  }

  lemma {:induction false} BalanceAllDepth(es: seq<Expr>)
    requires AllWellFormed(es)
    ensures MaxRawDepth(BalanceAll(es)) <= MaxDepth(es)
    decreases SizeAll(es), 1 + |es|
  {
    if es != [] {
      BalanceDepth(es[0]);
      BalanceAllDepth(es[1..]);
      assert BalanceAll(es)[1..] == BalanceAll(es[1..]);
    }
  }

  // ----- meaning

  function Fold<V>(m: Meaning<V>, kind: Kind, values: seq<V>): V
    requires values != [] && Binary(kind)
  {
    if |values| == 1 then values[0] else m.Apply(kind, values[0], Fold(m, kind, values[1..]))
  }

  lemma {:induction false} FoldAppend<V(!new)>(m: Meaning<V>, kind: Kind, us: seq<V>, vs: seq<V>)
    requires IsAssociative(m) && Binary(kind) && us != [] && vs != []
    ensures Fold(m, kind, us + vs) == m.Apply(kind, Fold(m, kind, us), Fold(m, kind, vs))
    decreases |us|
  {
    assert (us + vs)[1..] == us[1..] + vs;
    if |us| > 1 {
      FoldAppend(m, kind, us[1..], vs);
    } else {
      assert us[1..] + vs == vs;
    }
  }

  lemma {:induction false} EvalAllAppend<V>(m: Meaning<V>, inputs: string -> V, es: seq<Expr>, fs: seq<Expr>)
    requires AllWellFormed(es) && AllWellFormed(fs)
    ensures AllWellFormed(es + fs) && EvalAll(m, inputs, es + fs) == EvalAll(m, inputs, es) + EvalAll(m, inputs, fs)
  {
    WellFormedAppend(es, fs);
    if es == [] {
      assert es + fs == fs;
    } else {
      assert (es + fs)[1..] == es[1..] + fs;
      EvalAllAppend(m, inputs, es[1..], fs);
    }
  }

  /** A chain means the fold of its flattened operands. */
  lemma {:induction false} OperandsFold<V(!new)>(m: Meaning<V>, inputs: string -> V, children: seq<Expr>, kind: Kind)
    requires IsAssociative(m) && Binary(kind) && AllWellFormed(children) && children != []
    ensures AllWellFormed(AssociativeOperands(children, kind)) && AssociativeOperands(children, kind) != []
    ensures Fold(m, kind, EvalAll(m, inputs, AssociativeOperands(children, kind))) ==
            Fold(m, kind, EvalAll(m, inputs, children))
    decreases children
  {
    var child := children[0];
    var first := if IsKind(child, kind) then AssociativeOperands(child.children, kind) else [child];
    OperandsExist(children, kind);
    OperandsExist([child], kind);
    if IsKind(child, kind) {
      OperandsFold(m, inputs, child.children, kind);
      PairFold(m, inputs, kind, child.children);
      OperandsExist(child.children, kind);
    }
    assert Fold(m, kind, EvalAll(m, inputs, first)) == Eval(m, inputs, child);
    var rest := children[1..];
    if rest == [] {
      assert AssociativeOperands(children, kind) == first + AssociativeOperands(rest, kind) == first;
      assert EvalAll(m, inputs, children) == [Eval(m, inputs, child)];
    } else {
      OperandsFold(m, inputs, rest, kind);
      EvalAllAppend(m, inputs, first, AssociativeOperands(rest, kind));
      FoldAppend(m, kind, EvalAll(m, inputs, first), EvalAll(m, inputs, AssociativeOperands(rest, kind)));
      assert EvalAll(m, inputs, children)[1..] == EvalAll(m, inputs, rest);
    }
  }

  lemma PairFold<V>(m: Meaning<V>, inputs: string -> V, kind: Kind, pair: seq<Expr>)
    requires Binary(kind) && |pair| == 2 && AllWellFormed(pair)
    ensures Fold(m, kind, EvalAll(m, inputs, pair)) ==
            m.Apply(kind, EvalAll(m, inputs, pair)[0], EvalAll(m, inputs, pair)[1])
  {
  }

  lemma PairMeaning<V>(m: Meaning<V>, inputs: string -> V, kind: Kind, a: Expr, b: Expr)
    requires Binary(kind) && WellFormed(a) && WellFormed(b)
    ensures WellFormed(Op(kind, 1, [a, b]))
    ensures Eval(m, inputs, Op(kind, 1, [a, b])) == m.Apply(kind, Eval(m, inputs, a), Eval(m, inputs, b))
  {
    assert [a, b][1..] == [b] && [b][1..] == [];
    assert AllWellFormed([b][1..]);
    assert EvalAll(m, inputs, [b]) == [Eval(m, inputs, b)];
  }

  lemma {:induction false} BalancedMeaning<V(!new)>(m: Meaning<V>, inputs: string -> V, kind: Kind, operands: seq<Expr>)
    requires IsAssociative(m) && Binary(kind) && operands != [] && AllWellFormed(operands)
    ensures WellFormed(BuildBalanced(kind, operands))
    ensures Eval(m, inputs, BuildBalanced(kind, operands)) == Fold(m, kind, EvalAll(m, inputs, operands))
    decreases |operands|
  {
    if |operands| == 1 {
      assert EvalAll(m, inputs, operands) == [Eval(m, inputs, operands[0])];
    } else {
      var half := (|operands| + 1) / 2;
      var l, r := operands[..half], operands[half..];
      assert l + r == operands;
      WellFormedAppend(l, r);
      BalancedMeaning(m, inputs, kind, l);
      BalancedMeaning(m, inputs, kind, r);
      EvalAllAppend(m, inputs, l, r);
      FoldAppend(m, kind, EvalAll(m, inputs, l), EvalAll(m, inputs, r));
      PairMeaning(m, inputs, kind, BuildBalanced(kind, l), BuildBalanced(kind, r));
    }
  }

  lemma {:induction false} CollapseAppend<V(!new)>(m: Meaning<V>, es: seq<Expr>, fs: seq<Expr>)
    ensures CollapseAll(m, es + fs) <==> CollapseAll(m, es) && CollapseAll(m, fs)
  {
    if es == [] {
      assert es + fs == fs;
    } else {
      assert (es + fs)[1..] == es[1..] + fs;
      CollapseAppend(m, es[1..], fs);
    }
  }

  lemma {:induction false} OperandsCollapse<V(!new)>(m: Meaning<V>, children: seq<Expr>, kind: Kind)
    requires CollapseAll(m, children)
    ensures CollapseAll(m, AssociativeOperands(children, kind))
    decreases children
  {
    if children != [] {
      var child := children[0];
      if IsKind(child, kind) {
        OperandsCollapse(m, child.children, kind);
      }
      OperandsCollapse(m, children[1..], kind);
      CollapseAppend(m, if IsKind(child, kind) then AssociativeOperands(child.children, kind) else [child],
                     AssociativeOperands(children[1..], kind));
    }
  }

  /** Nested idempotent reductions mean the innermost one. */
  lemma {:induction false} ReductionsFold<V(!new)>(m: Meaning<V>, inputs: string -> V, cost: nat, children: seq<Expr>,
                                                   kind: Kind)
    requires kind.Reduce? && |children| == 1 && AllWellFormed(children) && Collapses(m, Op(kind, cost, children))
    ensures |AssociativeOperands(children, kind)| == 1 && AllWellFormed(AssociativeOperands(children, kind))
    ensures m.other(kind, EvalAll(m, inputs, children)) ==
            m.other(kind, EvalAll(m, inputs, AssociativeOperands(children, kind)))
    decreases children
  {
    OneOperand(children, kind);
    var child := children[0];
    assert children[1..] == [] && AssociativeOperands([], kind) == [];
    if IsKind(child, kind) {
      ReductionsFold(m, inputs, child.cost, child.children, kind);
      var inner := EvalAll(m, inputs, child.children);
      assert inner == [inner[0]];
      assert EvalAll(m, inputs, children) == [m.other(kind, inner)];
    }
  }

  /** Rebalancing preserves the value of the expression under every assignment. */
  lemma {:induction false} BalanceMeaning<V(!new)>(m: Meaning<V>, inputs: string -> V, e: Expr)
    requires IsAssociative(m) && Collapses(m, e) && WellFormed(e)
    ensures WellFormed(Balance(e)) && Eval(m, inputs, Balance(e)) == Eval(m, inputs, e)
    decreases Size(e), 0
  {
    match e
    case Input(_) =>
    case Op(kind, cost, children) =>
      if Binary(kind) {
        OperandsExist(children, kind);
        var operands := AssociativeOperands(children, kind);
        OperandsCollapse(m, children, kind);
        BalanceAllMeaning(m, inputs, operands);
        BalancedMeaning(m, inputs, kind, BalanceAll(operands));
        OperandsFold(m, inputs, children, kind);
        PairFold(m, inputs, kind, children);
      } else if kind.Reduce? {
        ReductionsFold(m, inputs, cost, children, kind);
        OperandsCollapse(m, children, kind);
        BalanceAllMeaning(m, inputs, AssociativeOperands(children, kind));
      } else {
        BalanceAllMeaning(m, inputs, children);
      }
  }

  lemma BalanceKeepsOthers(e: Expr, kind: Kind)
    requires WellFormed(e) && !IsKind(e, kind)
    ensures !IsKind(Balance(e), kind)
  {
    if e.Op? && Binary(e.kind) {
      OperandsExist(e.children, e.kind);
    }
  }

  lemma {:induction false} BalanceAllMeaning<V(!new)>(m: Meaning<V>, inputs: string -> V, es: seq<Expr>)
    requires IsAssociative(m) && CollapseAll(m, es) && AllWellFormed(es)
    ensures AllWellFormed(BalanceAll(es)) && EvalAll(m, inputs, BalanceAll(es)) == EvalAll(m, inputs, es)
    decreases SizeAll(es), 1 + |es|
  {
    if es != [] {
      BalanceMeaning(m, inputs, es[0]);
      BalanceAllMeaning(m, inputs, es[1..]);
      assert BalanceAll(es)[1..] == BalanceAll(es[1..]);
    }
  }

  lemma {:induction false} TrivialCollapses(m: Meaning<()>, e: Expr)
    ensures Collapses(m, e)
    decreases e, 0
  {
    if e.Op? {
      TrivialCollapseAll(m, e.children);
    }
  }

  lemma {:induction false} TrivialCollapseAll(m: Meaning<()>, es: seq<Expr>)
    ensures CollapseAll(m, es)
    decreases es, 1
  {
    if es != [] {
      TrivialCollapses(m, es[0]);
      TrivialCollapseAll(m, es[1..]);
    }
  }

  lemma BalanceIsWellFormed(e: Expr)
    requires WellFormed(e)
    ensures WellFormed(Balance(e))
  {
    var trivial := Meaning((a, b) => (), (a, b) => (), (a, b) => (), (a, b) => (), (kind, values) => ());
    assert IsAssociative(trivial);
    TrivialCollapses(trivial, e);
    BalanceMeaning(trivial, x => (), e);
  }

  /** `f` has the value of `e` under every assignment. */
  ghost predicate SameMeaning<V(!new)>(m: Meaning<V>, e: Expr, f: Expr) {
    WellFormed(e) && WellFormed(f) && forall inputs: string -> V :: Eval(m, inputs, f) == Eval(m, inputs, e)
  }

  // ----- reassociation

  /** `f` is `e` with its chains associated in another way: every chain keeps its operands in order, up to
      reassociation inside them, nested reductions count as one, and every other operator keeps its cost and its
      operands. */
  ghost predicate Reassociates(e: Expr, f: Expr)
    decreases Size(e), 0
  {
    match e
    case Input(_) => f == e
    case Op(kind, cost, children) =>
      && IsKind(f, kind)
      && if Associative(kind) then
           ReassociateAll(AssociativeOperands(children, kind), AssociativeOperands(f.children, kind))
         else f.cost == cost && ReassociateAll(children, f.children)
  }

  ghost predicate ReassociateAll(es: seq<Expr>, fs: seq<Expr>)
    decreases SizeAll(es), 1 + |es|
  {
    |es| == |fs| && (es == [] || (Reassociates(es[0], fs[0]) && ReassociateAll(es[1..], fs[1..])))
  }

  /** No reassociation changes the value, whatever the associative operators mean. */
  lemma {:induction false} ReassociationMeaning<V(!new)>(m: Meaning<V>, inputs: string -> V, e: Expr, f: Expr)
    requires IsAssociative(m) && WellFormed(e) && WellFormed(f) && Reassociates(e, f)
    requires Collapses(m, e) && Collapses(m, f)
    ensures Eval(m, inputs, e) == Eval(m, inputs, f)
    decreases Size(e), 0
  {
    match e
    case Input(_) =>
    case Op(kind, cost, children) =>
      if Binary(kind) {
        OperandsExist(children, kind);
        OperandsExist(f.children, kind);
        OperandsCollapse(m, children, kind);
        OperandsCollapse(m, f.children, kind);
        ReassociationAllMeaning(m, inputs, AssociativeOperands(children, kind), AssociativeOperands(f.children, kind));
        OperandsFold(m, inputs, children, kind);
        OperandsFold(m, inputs, f.children, kind);
        PairFold(m, inputs, kind, children);
        PairFold(m, inputs, kind, f.children);
      } else if kind.Reduce? {
        ReductionsFold(m, inputs, cost, children, kind);
        ReductionsFold(m, inputs, f.cost, f.children, kind);
        OperandsCollapse(m, children, kind);
        OperandsCollapse(m, f.children, kind);
        ReassociationAllMeaning(m, inputs, AssociativeOperands(children, kind), AssociativeOperands(f.children, kind));
      } else {
        ReassociationAllMeaning(m, inputs, children, f.children);
      }
  }

  lemma {:induction false} ReassociationAllMeaning<V(!new)>(m: Meaning<V>, inputs: string -> V, es: seq<Expr>,
                                                            fs: seq<Expr>)
    requires IsAssociative(m) && AllWellFormed(es) && AllWellFormed(fs) && ReassociateAll(es, fs)
    requires CollapseAll(m, es) && CollapseAll(m, fs)
    ensures EvalAll(m, inputs, es) == EvalAll(m, inputs, fs)
    decreases SizeAll(es), 1 + |es|
  {
    if es != [] {
      ReassociationMeaning(m, inputs, es[0], fs[0]);
      ReassociationAllMeaning(m, inputs, es[1..], fs[1..]);
    }
  }

  ghost predicate NoneOfKind(es: seq<Expr>, kind: Kind) {
    forall i :: 0 <= i < |es| ==> !IsKind(es[i], kind)
  }

  lemma {:induction false} OperandsAppend(es: seq<Expr>, fs: seq<Expr>, kind: Kind)
    ensures AssociativeOperands(es + fs, kind) == AssociativeOperands(es, kind) + AssociativeOperands(fs, kind)
    decreases |es|
  {
    if es == [] {
      assert es + fs == fs;
    } else {
      assert (es + fs)[1..] == es[1..] + fs;
      OperandsAppend(es[1..], fs, kind);
    }
  }

  /** The operands of a chain are not of its kind. */
  lemma {:induction false} OperandsAreOthers(children: seq<Expr>, kind: Kind)
    ensures NoneOfKind(AssociativeOperands(children, kind), kind)
    decreases children
  {
    if children != [] {
      var child := children[0];
      if IsKind(child, kind) {
        OperandsAreOthers(child.children, kind);
      }
      OperandsAreOthers(children[1..], kind);
    }
  }

  lemma OperandsOfPair(kind: Kind, x: Expr, y: Expr)
    ensures AssociativeOperands([Op(kind, 1, [x, y])], kind) ==
            AssociativeOperands([x], kind) + AssociativeOperands([y], kind)
  {
    var pair := [x, y];
    assert pair == [x] + [y];
    OperandsAppend([x], [y], kind);
    assert [Op(kind, 1, pair)][1..] == [];
    assert AssociativeOperands([Op(kind, 1, pair)], kind) ==
           AssociativeOperands(pair, kind) + AssociativeOperands([], kind);
  }

  lemma OperandIsItself(kind: Kind, operands: seq<Expr>)
    requires |operands| == 1 && NoneOfKind(operands, kind)
    ensures AssociativeOperands([BuildBalanced(kind, operands)], kind) == operands
  {
    assert [operands[0]] == operands;
    assert operands[1..] == [] && AssociativeOperands(operands[1..], kind) == [];
  }

  lemma NoneOfKindSplits(operands: seq<Expr>, half: nat, kind: Kind)
    requires NoneOfKind(operands, kind) && half <= |operands|
    ensures NoneOfKind(operands[..half], kind) && NoneOfKind(operands[half..], kind)
  {
  }

  lemma JoinOperands(kind: Kind, operands: seq<Expr>, half: nat, x: Expr, y: Expr)
    requires half <= |operands|
    requires AssociativeOperands([x], kind) == operands[..half] && AssociativeOperands([y], kind) == operands[half..]
    ensures AssociativeOperands([Op(kind, 1, [x, y])], kind) == operands
  {
    hide *;
    OperandsOfPair(kind, x, y);
    assert operands[..half] + operands[half..] == operands;
  }

  /** Flattening a balanced chain gives back its operands, in order. */
  lemma {:induction false} BalancedOperands(kind: Kind, operands: seq<Expr>)
    requires operands != [] && NoneOfKind(operands, kind)
    ensures AssociativeOperands([BuildBalanced(kind, operands)], kind) == operands
    decreases |operands|
  {
    if |operands| == 1 {
      OperandIsItself(kind, operands);
    } else {
      hide *;
      var half := (|operands| + 1) / 2;
      BuildSplits(kind, operands);
      NoneOfKindSplits(operands, half, kind);
      BalancedOperands(kind, operands[..half]);
      BalancedOperands(kind, operands[half..]);
      JoinOperands(kind, operands, half, BuildBalanced(kind, operands[..half]), BuildBalanced(kind, operands[half..]));
    }
  }

  lemma {:induction false} OthersAreOperands(es: seq<Expr>, kind: Kind)
    requires NoneOfKind(es, kind)
    ensures AssociativeOperands(es, kind) == es
    decreases |es|
  {
    if es != [] {
      OthersAreOperands(es[1..], kind);
      assert es == [es[0]] + es[1..];
    }
  }

  /** Balancing keeps the operand sequence of every chain. */
  lemma BalanceKeepsOperands(e: Expr, kind: Kind)
    requires WellFormed(e) && Associative(kind) && IsKind(e, kind)
    ensures IsKind(Balance(e), kind) && AllWellFormed(AssociativeOperands(e.children, kind))
    ensures AssociativeOperands(Balance(e).children, kind) == BalanceAll(AssociativeOperands(e.children, kind))
  {
    var operands := AssociativeOperands(e.children, kind);
    OperandsAreOthers(e.children, kind);
    if Binary(kind) {
      OperandsExist(e.children, kind);
      var balanced := BalanceAll(operands);
      BalanceAllKeepsKinds(operands, kind);
      BalancedOperands(kind, balanced);
      BuildSplits(kind, balanced);
      assert [Balance(e)][1..] == [];
      assert AssociativeOperands([Balance(e)], kind) ==
             AssociativeOperands(Balance(e).children, kind) + AssociativeOperands([], kind);
    } else {
      OneOperand(e.children, kind);
      BalanceAllKeepsKinds(operands, kind);
      OthersAreOperands(BalanceAll(operands), kind);
    }
  }

  lemma {:induction false} BalanceAllKeepsKinds(es: seq<Expr>, kind: Kind)
    requires AllWellFormed(es) && NoneOfKind(es, kind)
    ensures NoneOfKind(BalanceAll(es), kind)
    decreases |es|
  {
    if es != [] {
      BalanceKeepsOthers(es[0], kind);
      BalanceAllKeepsKinds(es[1..], kind);
    }
  }

  /** Balancing is a reassociation. */
  lemma {:induction false} BalanceReassociates(e: Expr)
    requires WellFormed(e)
    ensures Reassociates(e, Balance(e))
    decreases Size(e), 0
  {
    match e
    case Input(_) =>
    case Op(kind, cost, children) =>
      if Associative(kind) {
        BalanceKeepsOperands(e, kind);
        BalanceAllReassociates(AssociativeOperands(children, kind));
      } else {
        BalanceAllReassociates(children);
      }
  }

  lemma {:induction false} BalanceAllReassociates(es: seq<Expr>)
    requires AllWellFormed(es)
    ensures ReassociateAll(es, BalanceAll(es))
    decreases SizeAll(es), 1 + |es|
  {
    if es != [] {
      BalanceReassociates(es[0]);
      BalanceAllReassociates(es[1..]);
      assert BalanceAll(es)[1..] == BalanceAll(es[1..]);
    }
  }

  /** The estimate can be achieved by reassociating: the balanced tree is no deeper, whatever the operators mean. */
  lemma EstimateIsAchievable<V(!new)>(e: Expr)
    requires WellFormed(e)
    ensures Reassociates(e, Balance(e)) && RawDepth(Balance(e)) <= Depth(e)
    ensures forall m: Meaning<V> :: IsAssociative(m) && Collapses(m, e) ==> SameMeaning(m, e, Balance(e))
  {
    BalanceDepth(e);
    BalanceIsWellFormed(e);
    BalanceReassociates(e);
    forall m: Meaning<V> | IsAssociative(m) && Collapses(m, e)
      ensures SameMeaning(m, e, Balance(e))
    {
      forall inputs: string -> V
        ensures Eval(m, inputs, Balance(e)) == Eval(m, inputs, e)
      {
        BalanceMeaning(m, inputs, e);
      }
    }
  }

  // ----- nested reductions

  /** A reduction over the same reduction. */
  function Nested(kind: Kind): (e: Expr)
    requires kind.Reduce?
    ensures WellFormed(e)
  {
    var inner := Op(kind, 1, [Input("x")]);
    assert [Input("x")][1..] == [] && AllWellFormed([Input("x")]) && WellFormed(inner);
    assert [inner][1..] == [] && AllWellFormed([inner]);
    Op(kind, 1, [inner])
  }

  /** Counting it as one reduction is right exactly when the reduction is idempotent. */
  lemma NestedIff<V(!new)>(m: Meaning<V>, kind: Kind)
    requires kind.Reduce?
    ensures SameMeaning(m, Nested(kind), Balance(Nested(kind))) <==> IsIdempotent(m, kind)
  {
    NestedParts(kind);
    var e, f := Nested(kind), Balance(Nested(kind));
    forall inputs: string -> V
      ensures Eval(m, inputs, e) == m.other(kind, [m.other(kind, [inputs("x")])])
      ensures Eval(m, inputs, f) == m.other(kind, [inputs("x")])
    {
      NestedValues(m, inputs, kind);
    }
    if SameMeaning(m, e, f) {
      forall v
        ensures m.other(kind, [m.other(kind, [v])]) == m.other(kind, [v])
      {
        var inputs: string -> V := x => v;
        assert Eval(m, inputs, f) == Eval(m, inputs, e);
      }
    }
  }

  lemma NestedParts(kind: Kind)
    requires kind.Reduce?
    ensures WellFormed(Nested(kind)) && Balance(Nested(kind)) == Op(kind, 1, [Input("x")])
    ensures WellFormed(Balance(Nested(kind)))
  {
    var x, inner := Input("x"), Op(kind, 1, [Input("x")]);
    assert [x][1..] == [] && [inner][1..] == [];
    assert AllWellFormed([x]) && WellFormed(inner) && AllWellFormed([inner]);
    assert AssociativeOperands([x], kind) == [x] + AssociativeOperands([], kind) == [x];
    assert AssociativeOperands([inner], kind) == AssociativeOperands([x], kind) + AssociativeOperands([], kind) == [x];
    assert BalanceAll([x]) == [Balance(x)] + BalanceAll([]) == [x];
  }

  lemma NestedValues<V>(m: Meaning<V>, inputs: string -> V, kind: Kind)
    requires kind.Reduce? && WellFormed(Nested(kind)) && WellFormed(Op(kind, 1, [Input("x")]))
    ensures Eval(m, inputs, Op(kind, 1, [Input("x")])) == m.other(kind, [inputs("x")])
    ensures Eval(m, inputs, Nested(kind)) == m.other(kind, [m.other(kind, [inputs("x")])])
  {
    var x, inner := Input("x"), Op(kind, 1, [Input("x")]);
    assert [x][1..] == [] && [inner][1..] == [];
    assert EvalAll(m, inputs, [x]) == [inputs("x")];
    assert EvalAll(m, inputs, [inner]) == [Eval(m, inputs, inner)];
  }

  /** A reduction of one bit is that bit, or, for XNOR, its opposite: the nested XNOR reduction is counted wrongly. */
  lemma NestedXnorDiffers(m: Meaning<bool>, kind: Kind)
    requires kind.Reduce? && forall b: bool :: m.other(kind, [b]) == !b
    ensures !SameMeaning(m, Nested(kind), Balance(Nested(kind)))
  {
    NestedIff(m, kind);
    assert m.other(kind, [m.other(kind, [true])]) == true != m.other(kind, [true]);
  }

  // ----- the costliest route

  /** The operands of a node as the estimate sees them: a chain is one node. */
  function Operands(e: Expr): seq<Expr>
    requires e.Op?
  {
    if Associative(e.kind) then AssociativeOperands(e.children, e.kind) else e.children
  }

  /** The least number of levels, one at least, in which binary operators combine `n` operands. */
  predicate AreLevels(n: nat, k: nat) {
    k >= 1 && n <= Pow2(k) && (k == 1 || n > Pow2(k - 1))
  }

  predicate IsCharge(e: Expr, charge: nat)
    requires e.Op?
  {
    if Associative(e.kind) then AreLevels(|Operands(e)|, charge) else charge == e.cost
  }

  /** The route from the root to an input, or to an operator without operands, that takes the operands numbered so, and
      what the operators on it charge. */
  ghost predicate IsRoute(e: Expr, route: seq<nat>, total: nat)
    decreases |route|
  {
    if e.Input? then route == [] && total == 0
    else if Operands(e) == [] then route == [] && IsCharge(e, total)
    else
      && route != [] && route[0] < |Operands(e)|
      && exists charge: nat, rest: nat ::
           IsCharge(e, charge) && IsRoute(Operands(e)[route[0]], route[1..], rest) && total == charge + rest
  }

  lemma LevelsAre(n: nat)
    ensures AreLevels(n, ReductionDepth(n))
    ensures forall k: nat :: AreLevels(n, k) ==> k == ReductionDepth(n)
  {
    CeilLog2Enough(Max(2, n));
    forall k: nat | AreLevels(n, k)
      ensures k == ReductionDepth(n)
    {
      assert Pow2(1) == 2 * Pow2(0);
      Pow2Monotone(1, k);
      CeilLog2Least(Max(2, n), k);
      if ReductionDepth(n) < k {
        Pow2Monotone(ReductionDepth(n), k - 1);
      }
    }
    if ReductionDepth(n) > 1 && n <= Pow2(ReductionDepth(n) - 1) {
      Pow2Monotone(1, ReductionDepth(n) - 1);
      CeilLog2Least(Max(2, n), ReductionDepth(n) - 1);
    }
  }

  lemma {:induction false} CeilLog2Enough(n: nat)
    ensures n <= Pow2(CeilLog2(n))
  {
    if n > 1 {
      CeilLog2Enough((n + 1) / 2);
    }
  }

  function ChargeOf(e: Expr): (charge: nat)
    requires e.Op?
    ensures IsCharge(e, charge) && forall c: nat :: IsCharge(e, c) ==> c == charge
  {
    LevelsAre(|Operands(e)|);
    if Associative(e.kind) then ReductionDepth(|Operands(e)|) else e.cost
  }

  lemma DepthParts(e: Expr)
    requires e.Op?
    ensures Depth(e) == ChargeOf(e) + MaxDepth(Operands(e))
  {
  }

  lemma {:induction false} MaxDepthBounds(es: seq<Expr>, i: nat)
    requires i < |es|
    ensures Depth(es[i]) <= MaxDepth(es) && Size(es[i]) <= SizeAll(es)
    decreases |es|
  {
    if i > 0 {
      MaxDepthBounds(es[1..], i - 1);
    }
  }

  lemma {:induction false} DeepestOperand(es: seq<Expr>) returns (i: nat)
    requires es != []
    ensures i < |es| && Depth(es[i]) == MaxDepth(es)
    decreases |es|
  {
    i := 0;
    if |es| > 1 {
      var j := DeepestOperand(es[1..]);
      if Depth(es[0]) < MaxDepth(es[1..]) {
        i := j + 1;
      }
    } else {
      assert es[1..] == [];
    }
  }

  lemma {:induction false} NoRouteCostsMore(e: Expr, route: seq<nat>, total: nat)
    requires IsRoute(e, route, total)
    ensures total <= Depth(e)
    decreases |route|
  {
    if e.Op? {
      DepthParts(e);
      var operands := Operands(e);
      if operands != [] {
        var charge: nat, rest: nat :|
          IsCharge(e, charge) && IsRoute(operands[route[0]], route[1..], rest) && total == charge + rest;
        NoRouteCostsMore(operands[route[0]], route[1..], rest);
        MaxDepthBounds(operands, route[0]);
      }
    }
  }

  lemma {:induction false} SomeRouteCosts(e: Expr) returns (route: seq<nat>)
    ensures IsRoute(e, route, Depth(e))
    decreases Size(e)
  {
    route := [];
    if e.Op? {
      DepthParts(e);
      var operands := Operands(e);
      if operands != [] {
        var i := DeepestOperand(operands);
        MaxDepthBounds(operands, i);
        var rest := SomeRouteCosts(operands[i]);
        route := [i] + rest;
        assert route[1..] == rest;
        assert IsCharge(e, ChargeOf(e)) && IsRoute(operands[route[0]], route[1..], Depth(operands[i]));
      }
    }
  }

  /** The estimate is the cost of the costliest route: none costs more, and one costs exactly as much. */
  lemma EstimateIsCostliestRoute(e: Expr)
    ensures forall route, total: nat :: IsRoute(e, route, total) ==> total <= Depth(e)
    ensures exists route :: IsRoute(e, route, Depth(e))
  {
    forall route, total: nat | IsRoute(e, route, total)
      ensures total <= Depth(e)
    {
      NoRouteCostsMore(e, route, total);
    }
    var route := SomeRouteCosts(e);
  }

  // ----- optimality

  lemma {:induction false} CeilLog2Least(n: nat, k: nat)
    requires n <= Pow2(k)
    ensures CeilLog2(n) <= k
    decreases n
  {
    if n > 1 {
      CeilLog2Least((n + 1) / 2, k - 1);
    }
  }

  /** However a chain is associated, a tree of depth d combines at most 2^d operands of it. */
  lemma {:induction false} ChainFitsDepth(e: Expr, kind: Kind)
    requires WellFormed(e) && Binary(kind)
    ensures |AssociativeOperands([e], kind)| <= Pow2(RawDepth(e))
    decreases e
  {
    hide *;
    if IsKind(e, kind) {
      TwoChildren(e, kind);
      ChainFitsDepth(e.children[0], kind);
      ChainFitsDepth(e.children[1], kind);
      ChainSplits(e, kind, e.children[0], e.children[1]);
      PowersAdd(RawDepth(e.children[0]), RawDepth(e.children[1]), RawDepth(e));
    } else {
      OtherFits(e, kind);
    }
  }

  lemma PowersAdd(a: nat, b: nat, n: nat)
    requires n == 1 + Max(a, b)
    ensures Pow2(a) + Pow2(b) <= Pow2(n)
  {
    Pow2Monotone(a, n - 1);
    Pow2Monotone(b, n - 1);
  }

  lemma OtherFits(e: Expr, kind: Kind)
    requires !IsKind(e, kind)
    ensures |AssociativeOperands([e], kind)| <= Pow2(RawDepth(e))
  {
    assert [e][1..] == [] && AssociativeOperands([e], kind) == [e] + AssociativeOperands([], kind);
  }

  lemma TwoChildren(e: Expr, kind: Kind)
    requires WellFormed(e) && Binary(kind) && IsKind(e, kind)
    ensures e.Op? && |e.children| == 2 && e.children == [e.children[0], e.children[1]]
    ensures WellFormed(e.children[0]) && WellFormed(e.children[1])
    ensures e.children[0] < e && e.children[1] < e
  {
    assert AllWellFormed(e.children[1..]) && e.children[1..][0] == e.children[1];
  }

  lemma ChainSplits(e: Expr, kind: Kind, a: Expr, b: Expr)
    requires IsKind(e, kind) && Binary(kind) && e.children == [a, b]
    ensures AssociativeOperands([e], kind) == AssociativeOperands([a], kind) + AssociativeOperands([b], kind)
    ensures RawDepth(e) == 1 + Max(RawDepth(a), RawDepth(b))
  {
    assert [a, b][1..] == [b] && [a][1..] == [] && [e][1..] == [];
    assert AssociativeOperands([e], kind) == AssociativeOperands(e.children, kind);
    assert AssociativeOperands([a], kind) + AssociativeOperands([b], kind) == AssociativeOperands(e.children, kind);
    PairDepth(kind, a, b);
    assert e == Op(kind, e.cost, [a, b]);
  }

  /** On a chain of plain inputs the estimate is exactly ceil(log2 n), and no association of the same
      operands is shallower. */
  lemma LeafChainEstimateIsLeast(e: Expr, f: Expr, kind: Kind)
    requires WellFormed(e) && WellFormed(f) && Binary(kind) && IsKind(e, kind) && IsKind(f, kind)
    requires AssociativeOperands(e.children, kind) == AssociativeOperands(f.children, kind)
    requires forall o <- AssociativeOperands(e.children, kind) :: o.Input?
    ensures Depth(e) == CeilLog2(|AssociativeOperands(e.children, kind)|) <= RawDepth(f)
  {
    var operands := AssociativeOperands(e.children, kind);
    OperandsExist(e.children, kind);
    CeilLog2Monotone(2, |operands|);
    InputsHaveNoDepth(operands);
    assert AssociativeOperands([f], kind) == AssociativeOperands(f.children, kind);
    ChainFitsDepth(f, kind);
    CeilLog2Least(|operands|, RawDepth(f));
  }

  lemma {:induction false} InputsHaveNoDepth(es: seq<Expr>)
    requires forall e <- es :: e.Input?
    ensures MaxDepth(es) == 0
  {
    if es != [] {
      InputsHaveNoDepth(es[1..]);
    }
  }

  // ----- bitwise operators

  /** One bit lane of the bitwise operators, which act on every lane alike. */
  function Lane(other: (Kind, seq<bool>) -> bool): Meaning<bool> {
    Meaning((a, b) => a && b, (a, b) => a || b, (a, b) => a != b, (a, b) => a == b, other)
  }

  /** All four bitwise operators are associative, XNOR included. */
  lemma LanesAreAssociative(other: (Kind, seq<bool>) -> bool)
    ensures IsAssociative(Lane(other))
  {
  }
}
