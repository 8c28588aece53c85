/** Fractional ranks and the rank correlation of two measurement columns, over the reals. */
module Ranking {
  import opened Collections

  // ----- what a rank is

  function CountLess(values: seq<real>, x: real): nat {
    if values == [] then 0
    else CountLess(values[..|values| - 1], x) + if values[|values| - 1] < x then 1 else 0
  }

  function CountEqual(values: seq<real>, x: real): nat {
    if values == [] then 0
    else CountEqual(values[..|values| - 1], x) + if values[|values| - 1] == x then 1 else 0
  }

  /** Smaller values plus the middle of the group of ties. */
  function RankOf(values: seq<real>, x: real): real {
    CountLess(values, x) as real + (CountEqual(values, x) as real + 1.0) / 2.0
  }

  function RanksOf(values: seq<real>, xs: seq<real>): seq<real> {
    seq(|xs|, i requires 0 <= i < |xs| => RankOf(values, xs[i]))
  }

  function Ranks(values: seq<real>): seq<real> {
    RanksOf(values, values)
  }

  function Sum(values: seq<real>): real {
    if values == [] then 0.0 else Sum(values[..|values| - 1]) + values[|values| - 1]
  }

  // ----- ranking by sorting

  /** The first `n` positions in ascending order of their values. */
  ghost predicate IsOrderOf(values: seq<real>, order: seq<nat>, n: nat) {
    && |order| == n <= |values| && Distinct(order)
    && (forall p :: 0 <= p < n ==> order[p] < n)
    && (forall p, q :: 0 <= p < q < n ==> values[order[p]] <= values[order[q]])
  }

  ghost predicate IsOrder(values: seq<real>, order: seq<nat>) {
    IsOrderOf(values, order, |values|)
  }

  function Insert(order: seq<nat>, k: nat, n: nat): (more: seq<nat>)
    requires k <= |order|
    ensures |more| == |order| + 1
    ensures forall p :: 0 <= p < |more| ==> more[p] == if p < k then order[p] else if p == k then n else order[p - 1]
  {
    order[..k] + [n] + order[k..]
  }

  lemma InsertedAreDistinct(order: seq<nat>, n: nat, k: nat)
    requires k <= |order| && Distinct(order) && forall p :: 0 <= p < |order| ==> order[p] < n
    ensures Distinct(Insert(order, k, n))
  {
    var more := Insert(order, k, n);
    forall p, q | 0 <= p < q < |more|
      ensures more[p] != more[q]
    {
      assert more[p] == n || more[p] == order[if p < k then p else p - 1];
      assert more[q] == n || more[q] == order[if q < k then q else q - 1];
    }
  }

  lemma InsertedAreSorted(values: seq<real>, order: seq<nat>, n: nat, k: nat)
    requires IsOrderOf(values, order, n) && k <= n < |values|
    requires k > 0 ==> values[order[k - 1]] <= values[n]
    requires forall p :: k <= p < n ==> values[order[p]] > values[n]
    ensures var more := Insert(order, k, n);
            forall p, q :: 0 <= p < q < |more| ==> values[more[p]] <= values[more[q]]
  {
    var more := Insert(order, k, n);
    assert forall p :: 0 <= p < k ==> values[order[p]] <= values[order[k - 1]];
    forall p, q | 0 <= p < q < |more|
      ensures values[more[p]] <= values[more[q]]
    {
    }
  }

  lemma Inserted(values: seq<real>, order: seq<nat>, n: nat, k: nat)
    requires IsOrderOf(values, order, n) && k <= n < |values|
    requires k > 0 ==> values[order[k - 1]] <= values[n]
    requires forall p :: k <= p < n ==> values[order[p]] > values[n]
    ensures IsOrderOf(values, Insert(order, k, n), n + 1)
  {
    var more := Insert(order, k, n);
    InsertedAreDistinct(order, n, k);
    InsertedAreSorted(values, order, n, k);
  }

  /** Sorts the positions by insertion, later positions behind equal values. */
  method SortPositions(values: seq<real>) returns (order: seq<nat>)
    ensures IsOrder(values, order)
  {
    order := [];
    for n := 0 to |values|
      invariant IsOrderOf(values, order, n)
    {
      var k := n;
      while k > 0 && values[order[k - 1]] > values[n]
        invariant 0 <= k <= n
        invariant forall p :: k <= p < n ==> values[order[p]] > values[n]
      {
        k := k - 1;
      }
      Inserted(values, order, n, k);
      order := Insert(order, k, n);
    }
  }

  lemma {:induction false} LessIsCardinality(values: seq<real>, x: real)
    ensures |set i: nat | 0 <= i < |values| && values[i] < x| == CountLess(values, x)
  {
    if values != [] {
      LessIsCardinality(values[..|values| - 1], x);
      LessSetSnoc(values, x);
    }
  }

  lemma LessSetSnoc(values: seq<real>, x: real)
    requires values != []
    ensures var front, n := values[..|values| - 1], |values| - 1;
            (set i: nat | 0 <= i < |values| && values[i] < x) ==
            (set i: nat | 0 <= i < |front| && front[i] < x) + if values[n] < x then {n} else {}
  {
  }

  lemma {:induction false} EqualIsCardinality(values: seq<real>, x: real)
    ensures |set i: nat | 0 <= i < |values| && values[i] == x| == CountEqual(values, x)
  {
    if values != [] {
      EqualIsCardinality(values[..|values| - 1], x);
      EqualSetSnoc(values, x);
    }
  }

  lemma EqualSetSnoc(values: seq<real>, x: real)
    requires values != []
    ensures var front, n := values[..|values| - 1], |values| - 1;
            (set i: nat | 0 <= i < |values| && values[i] == x) ==
            (set i: nat | 0 <= i < |front| && front[i] == x) + if values[n] == x then {n} else {}
  {
  }

  /** An order has every position in it. */
  lemma OrderIsOnto(values: seq<real>, order: seq<nat>, i: nat)
    requires IsOrder(values, order) && i < |values|
    ensures i in order
  {
    DistinctCount(order);
    AllBelow(Elems(order), |values|, i);
  }

  lemma {:induction false} AllBelow(s: set<nat>, n: nat, i: nat)
    requires (forall j <- s :: j < n) && |s| == n && i < n
    ensures i in s
  {
    if i !in s {
      AtMostBelow(s + {i}, n);
    }
  }

  lemma {:induction false} AtMostBelow(s: set<nat>, n: nat)
    requires forall j <- s :: j < n
    ensures |s| <= n
  {
    if n == 0 {
      assert s == {};
    } else {
      AtMostBelow(s - {n - 1}, n - 1);
      assert s <= (s - {n - 1}) + {n - 1};
    }
  }

  /** A maximal block of equal values in the order, and what it says about their ranks. */
  ghost predicate IsBlock(values: seq<real>, order: seq<nat>, start: nat, end: nat) {
    && IsOrder(values, order) && start < end <= |order|
    && (forall p :: start <= p < end ==> values[order[p]] == values[order[start]])
    && (forall p :: 0 <= p < start ==> values[order[p]] < values[order[start]])
    && (forall p :: end <= p < |order| ==> values[order[p]] > values[order[start]])
  }

  lemma BlockRank(values: seq<real>, order: seq<nat>, start: nat, end: nat)
    requires IsBlock(values, order, start, end)
    ensures RankOf(values, values[order[start]]) == (((start + 1) + end) as real) / 2.0
  {
    var x := values[order[start]];
    LessIsCardinality(values, x);
    EqualIsCardinality(values, x);
    var less, equal := order[..start], order[start..end];
    forall i: nat
      ensures i in less <==> i < |values| && values[i] < x
      ensures i in equal <==> i < |values| && values[i] == x
    {
      BlockMember(values, order, start, end, i);
    }
    assert Elems(less) == set i: nat | 0 <= i < |values| && values[i] < x;
    assert Elems(equal) == set i: nat | 0 <= i < |values| && values[i] == x;
    DistinctCount(less);
    DistinctCount(equal);
  }

  lemma BlockMember(values: seq<real>, order: seq<nat>, start: nat, end: nat, i: nat)
    requires IsBlock(values, order, start, end)
    ensures i in order[..start] <==> i < |values| && values[i] < values[order[start]]
    ensures i in order[start..end] <==> i < |values| && values[i] == values[order[start]]
  {
    if i < |values| {
      OrderIsOnto(values, order, i);
      var p :| 0 <= p < |order| && order[p] == i;
      if p < start {
        assert order[..start][p] == i;
      } else if p < end {
        assert order[start..end][p - start] == i;
      }
    }
  }

  method Rank(values: seq<real>) returns (result: seq<real>)
    ensures result == Ranks(values)
  {
    var order := SortPositions(values);
    var ranks := new real[|values|](_ => 0.0);
    var start := 0;
    while start < |order|
      invariant start <= |order|
      invariant forall p :: 0 <= p < start ==> ranks[order[p]] == RankOf(values, values[order[p]])
      invariant forall p, q :: 0 <= p < start <= q < |order| ==> values[order[p]] < values[order[q]]
    {
      var end := start + 1;
      while end < |order| && values[order[end]] == values[order[start]]
        invariant start < end <= |order|
        invariant forall p :: start <= p < end ==> values[order[p]] == values[order[start]]
      {
        end := end + 1;
      }
      BlockRank(values, order, start, end);
      var averageRank := (((start + 1) + end) as real) / 2.0;
      for position := start to end
        invariant forall p :: 0 <= p < position ==> ranks[order[p]] == RankOf(values, values[order[p]])
      {
        ranks[order[position]] := averageRank;
      }
      start := end;
    }
    result := ranks[..];
    forall i | 0 <= i < |values|
      ensures result[i] == Ranks(values)[i]
    {
      OrderIsOnto(values, order, i);
    }
  }

  // ----- what ranks keep

  /** How a value stands against a list: two points for each smaller value, one for each equal one. */
  function Score(values: seq<real>, x: real): nat {
    2 * CountLess(values, x) + CountEqual(values, x)
  }

  function Points(x: real, y: real): nat {
    if y < x then 2 else if y == x then 1 else 0
  }

  function TotalScore(values: seq<real>, xs: seq<real>): nat {
    if xs == [] then 0 else TotalScore(values, xs[..|xs| - 1]) + Score(values, xs[|xs| - 1])
  }

  lemma {:induction false} ScoreSnoc(values: seq<real>, v: real, x: real)
    ensures Score(values + [v], x) == Score(values, x) + Points(x, v)
  {
    assert (values + [v])[..|values|] == values;
  }

  /** A new value and the list give each other two points per pair. */
  lemma {:induction false} TotalSnoc(values: seq<real>, v: real, xs: seq<real>)
    ensures TotalScore(values + [v], xs) + Score(xs, v) == TotalScore(values, xs) + 2 * |xs|
  {
    if xs != [] {
      var front, x := xs[..|xs| - 1], xs[|xs| - 1];
      TotalSnoc(values, v, front);
      ScoreSnoc(values, v, x);
      ScoreSnoc(front, x, v);
      assert xs == front + [x];
    }
  }

  lemma TotalOfSnoc(front: seq<real>, v: real)
    ensures TotalScore(front + [v], front + [v]) == TotalScore(front, front) + 2 * |front| + 1
  {
    hide Score, CountLess, CountEqual;
    TotalSnoc(front, v, front);
    ScoreSnoc(front, v, v);
    assert (front + [v])[..|front|] == front;
  }

  lemma SquareStep(n: nat)
    ensures (n + 1) * (n + 1) == n * n + 2 * n + 1
  {
  }

  lemma {:induction false} TotalIsSquare(values: seq<real>)
    ensures TotalScore(values, values) == |values| * |values|
  {
    if values != [] {
      hide TotalScore;
      var front, v := values[..|values| - 1], values[|values| - 1];
      TotalIsSquare(front);
      assert values == front + [v];
      TotalOfSnoc(front, v);
      SquareStep(|front|);
    }
  }

  lemma {:induction false} SumOfRanks(values: seq<real>, xs: seq<real>)
    ensures Sum(RanksOf(values, xs)) == (TotalScore(values, xs) + |xs|) as real / 2.0
  {
    if xs != [] {
      var front := xs[..|xs| - 1];
      SumOfRanks(values, front);
      assert RanksOf(values, xs)[..|xs| - 1] == RanksOf(values, front);
    }
  }

  /** Whatever the ties, the ranks of n values add up to n(n + 1)/2. */
  lemma RanksAddUp(values: seq<real>)
    ensures Sum(Ranks(values)) == (|values| * (|values| + 1)) as real / 2.0
  {
    TotalIsSquare(values);
    SumOfRanks(values, values);
  }

  ghost predicate Increasing(f: real -> real) {
    forall x, y :: x < y ==> f(x) < f(y)
  }

  ghost predicate Decreasing(f: real -> real) {
    forall x, y :: x < y ==> f(x) > f(y)
  }

  function Mapped(f: real -> real, values: seq<real>): seq<real> {
    seq(|values|, i requires 0 <= i < |values| => f(values[i]))
  }

  lemma {:induction false} IncreasingKeepsCounts(f: real -> real, values: seq<real>, x: real)
    requires Increasing(f)
    ensures CountLess(Mapped(f, values), f(x)) == CountLess(values, x)
    ensures CountEqual(Mapped(f, values), f(x)) == CountEqual(values, x)
  {
    if values != [] {
      var front, v := values[..|values| - 1], values[|values| - 1];
      IncreasingKeepsCounts(f, front, x);
      assert Mapped(f, values)[..|values| - 1] == Mapped(f, front);
      assert v < x || v == x || x < v;
    }
  }

  lemma {:induction false} DecreasingSwapsCounts(f: real -> real, values: seq<real>, x: real)
    requires Decreasing(f)
    ensures CountLess(Mapped(f, values), f(x)) + CountLess(values, x) + CountEqual(values, x) == |values|
    ensures CountEqual(Mapped(f, values), f(x)) == CountEqual(values, x)
  {
    if values != [] {
      var front, v := values[..|values| - 1], values[|values| - 1];
      DecreasingSwapsCounts(f, front, x);
      assert Mapped(f, values)[..|values| - 1] == Mapped(f, front);
      assert v < x || v == x || x < v;
    }
  }

  /** Ranks do not see a strictly increasing change of scale. */
  lemma IncreasingKeepsRanks(f: real -> real, values: seq<real>)
    requires Increasing(f)
    ensures Ranks(Mapped(f, values)) == Ranks(values)
  {
    forall i | 0 <= i < |values|
      ensures Ranks(Mapped(f, values))[i] == Ranks(values)[i]
    {
      IncreasingKeepsCounts(f, values, values[i]);
    }
  }

  /** A strictly decreasing change of scale turns ranks around. */
  lemma DecreasingTurnsRanks(f: real -> real, values: seq<real>, i: nat)
    requires Decreasing(f) && i < |values|
    ensures Ranks(Mapped(f, values))[i] == (|values| + 1) as real - Ranks(values)[i]
  {
    DecreasingSwapsCounts(f, values, values[i]);
  }

  lemma {:induction false} LessAccumulates(values: seq<real>, x: real, y: real)
    requires x < y
    ensures CountLess(values, y) >= CountLess(values, x) + CountEqual(values, x)
  {
    if values != [] {
      LessAccumulates(values[..|values| - 1], x, y);
    }
  }

  lemma {:induction false} PresentCounts(values: seq<real>, i: nat)
    requires i < |values|
    ensures CountEqual(values, values[i]) >= 1
  {
    if i < |values| - 1 {
      PresentCounts(values[..|values| - 1], i);
    }
  }

  /** Ranks order the values, and only equal values share a rank. */
  lemma RanksOrderValues(values: seq<real>, i: nat, j: nat)
    requires i < |values| && j < |values|
    ensures Ranks(values)[i] < Ranks(values)[j] <==> values[i] < values[j]
  {
    PresentCounts(values, i);
    PresentCounts(values, j);
    if values[i] < values[j] {
      LessAccumulates(values, values[i], values[j]);
    }
    if values[j] < values[i] {
      LessAccumulates(values, values[j], values[i]);
    }
  }

  lemma {:induction false} TiedCounts(values: seq<real>, x: real)
    requires forall i :: 0 <= i < |values| ==> values[i] == x
    ensures CountLess(values, x) == 0 && CountEqual(values, x) == |values|
  {
    if values != [] {
      TiedCounts(values[..|values| - 1], x);
    }
  }
}
