/** The built list as positions of its block: what it comes back from depends on size and seed only. */
module ListPositions {
  import opened Collections
  import opened ListCells
  import opened ListIndices
  import opened ListOrders
  import opened MergeOrder

  /** The positions of the cells sorted by index, those of the same index as they are. */
  ghost predicate IsPositionOrder(size: nat, seed: S16, order: seq<int>) {
    && |order| + 1 == size < 0x8000
    && (forall k :: 0 <= k < |order| ==> 0 <= order[k] < |order|)
    && Distinct(order)
    && (forall i, j :: 0 <= i < j < |order| ==>
          || IndexOf(size, seed, order[i]) < IndexOf(size, seed, order[j])
          || (IndexOf(size, seed, order[i]) == IndexOf(size, seed, order[j]) && order[i] < order[j]))
  }

  ghost function PositionIndices(size: nat, seed: S16): Indices<int>
    requires size < 0x8000
  {
    map p | 0 <= p < size - 1 :: IndexOf(size, seed, p)
  }

  ghost function PositionWords(size: nat, seed: S16): Words<int> {
    map p | 0 <= p < size - 1 :: WordOf(size, seed, p)
  }

  /** The condition on size, seed and number of searches under which every run over the built list gives it back. */
  ghost predicate BuiltComesBack(size: nat, seed: S16, findNum: S16)
    requires size < 0x8000
  {
    forall order: seq<int> :: IsPositionOrder(size, seed, order) ==>
      RunComesBack(order, PositionIndices(size, seed), PositionWords(size, seed), findNum)
  }

  ghost function Upto(n: nat): (s: set<int>)
    ensures |s| == n && forall i :: i in s <==> 0 <= i < n
  {
    if n == 0 then {} else Upto(n - 1) + {n - 1}
  }

  lemma OrderElems(size: nat, seed: S16, order: seq<int>)
    requires IsPositionOrder(size, seed, order)
    ensures Elems(order) == Upto(|order|)
  {
    hide IndexOf;
    DistinctCount(order);
    SubsetOfSameSize(Elems(order), Upto(|order|));
  }

  /** Every position occurs in the order. */
  lemma PositionOccurs(size: nat, seed: S16, order: seq<int>, p: int) returns (k: nat)
    requires IsPositionOrder(size, seed, order) && 0 <= p < |order|
    ensures k < |order| && order[k] == p
  {
    hide IndexOf;
    OrderElems(size, seed, order);
    assert p in Elems(order);
    k :| 0 <= k < |order| && order[k] == p;
  }

  ghost function PositionMarks(size: nat, seed: S16, n: nat): Marks<int>
    requires n + 1 == size < 0x8000
  {
    map p | p in Upto(n) :: Mark(true, IndexOf(size, seed, p))
  }

  ghost function PositionPlaces(n: nat): Places<int> {
    map p | p in Upto(n) :: p
  }

  lemma OrderAscends(size: nat, seed: S16, order: seq<int>)
    requires IsPositionOrder(size, seed, order)
    ensures Ascending(PositionMarks(size, seed, |order|), PositionPlaces(|order|), order)
  {
    hide IndexOf;
  }

  /** There is only one such order. */
  lemma PositionOrderIsUnique(size: nat, seed: S16, order: seq<int>, other: seq<int>)
    requires IsPositionOrder(size, seed, order) && IsPositionOrder(size, seed, other)
    ensures order == other
  {
    hide IndexOf, PositionMarks, PositionPlaces, Ascending;
    OrderElems(size, seed, order);
    OrderElems(size, seed, other);
    OrderAscends(size, seed, order);
    OrderAscends(size, seed, other);
    OneAscendingOrder(PositionMarks(size, seed, |order|), PositionPlaces(|order|), order, other);
  }

  ghost predicate AreBelow(order: seq<int>, n: int) {
    forall k :: 0 <= k < |order| ==> 0 <= order[k] < n
  }

  /** The position `p` put into its place among smaller ones. */
  ghost function Inserted(size: nat, seed: S16, order: seq<int>, p: nat): seq<int>
    requires p + 1 < size < 0x8000 && AreBelow(order, p)
  {
    if order == [] then [p]
    else
      var front, last := order[..|order| - 1], order[|order| - 1];
      if IndexOf(size, seed, last) <= IndexOf(size, seed, p) then order + [p]
      else Inserted(size, seed, front, p) + [last]
  }

  ghost predicate Precedes(size: nat, seed: S16, p: int, q: int) {
    && 0 <= p && p + 1 < size < 0x8000 && 0 <= q && q + 1 < size
    && (IndexOf(size, seed, p) < IndexOf(size, seed, q) || (IndexOf(size, seed, p) == IndexOf(size, seed, q) && p < q))
  }

  ghost predicate InOrder(size: nat, seed: S16, order: seq<int>) {
    forall i, j :: 0 <= i < j < |order| ==> Precedes(size, seed, order[i], order[j])
  }

  lemma AppendedInOrder(size: nat, seed: S16, order: seq<int>, x: int)
    requires InOrder(size, seed, order) && forall k :: 0 <= k < |order| ==> Precedes(size, seed, order[k], x)
    ensures InOrder(size, seed, order + [x])
  {
    hide Precedes;
  }

  lemma LargestAppends(size: nat, seed: S16, order: seq<int>, p: nat)
    requires p + 1 < size < 0x8000 && AreBelow(order, p) && InOrder(size, seed, order) && order != []
    requires IndexOf(size, seed, order[|order| - 1]) <= IndexOf(size, seed, p)
    ensures forall k :: 0 <= k < |order| ==> Precedes(size, seed, order[k], p)
  {
    hide IndexOf;
    var n := |order| - 1;
    forall k | 0 <= k < |order|
      ensures Precedes(size, seed, order[k], p)
    {
      assert k < n ==> Precedes(size, seed, order[k], order[n]);
    }
  }

  lemma {:induction false} InsertedInOrder(size: nat, seed: S16, order: seq<int>, p: nat)
    requires p + 1 < size < 0x8000 && AreBelow(order, p) && InOrder(size, seed, order)
    ensures var r := Inserted(size, seed, order, p);
            && |r| == |order| + 1 && AreBelow(r, p + 1) && InOrder(size, seed, r)
            && forall k :: 0 <= k < |r| ==> r[k] == p || r[k] in order
    decreases |order|
  {
    if order != [] {
      hide IndexOf, Precedes, InOrder;
      var front, last := order[..|order| - 1], order[|order| - 1];
      if IndexOf(size, seed, last) <= IndexOf(size, seed, p) {
        LargestAppends(size, seed, order, p);
        AppendedInOrder(size, seed, order, p);
      } else {
        FrontInOrder(size, seed, order);
        InsertedInOrder(size, seed, front, p);
        var r := Inserted(size, seed, front, p);
        LastFollows(size, seed, order, r, p);
        AppendedInOrder(size, seed, r, last);
      }
    } else {
      assert Inserted(size, seed, order, p) == [p];
    }
  }

  lemma FrontInOrder(size: nat, seed: S16, order: seq<int>)
    requires InOrder(size, seed, order) && order != []
    ensures InOrder(size, seed, order[..|order| - 1])
  {
    hide Precedes;
  }

  lemma LastFollows(size: nat, seed: S16, order: seq<int>, r: seq<int>, p: nat)
    requires p + 1 < size < 0x8000 && AreBelow(order, p) && InOrder(size, seed, order) && order != []
    requires IndexOf(size, seed, p) < IndexOf(size, seed, order[|order| - 1])
    requires forall k :: 0 <= k < |r| ==> r[k] == p || r[k] in order[..|order| - 1]
    ensures forall k :: 0 <= k < |r| ==> Precedes(size, seed, r[k], order[|order| - 1])
  {
    hide IndexOf;
    var front, last := order[..|order| - 1], order[|order| - 1];
    forall k | 0 <= k < |r|
      ensures Precedes(size, seed, r[k], last)
    {
      if r[k] != p {
        var i :| 0 <= i < |front| && front[i] == r[k];
        assert Precedes(size, seed, order[i], order[|order| - 1]);
      }
    }
  }

  lemma {:induction false} SortedPositions(size: nat, seed: S16, n: nat) returns (order: seq<int>)
    requires n < size < 0x8000
    ensures |order| == n && AreBelow(order, n) && InOrder(size, seed, order)
  {
    if n == 0 {
      order := [];
    } else {
      hide IndexOf, Inserted, InOrder;
      var less := SortedPositions(size, seed, n - 1);
      InsertedInOrder(size, seed, less, n - 1);
      order := Inserted(size, seed, less, n - 1);
    }
  }

  /** There is such an order for every size and seed. */
  lemma SomeOrder(size: nat, seed: S16) returns (order: seq<int>)
    requires 0 < size < 0x8000
    ensures IsPositionOrder(size, seed, order)
  {
    hide IndexOf;
    order := SortedPositions(size, seed, size - 1);
  }

  lemma PositionBytesAlike(size: nat, seed: S16, order: seq<int>)
    requires IsPositionOrder(size, seed, order)
    ensures forall k :: 0 <= k < |order| ==>
      order[k] in PositionIndices(size, seed) && BytesAlike(PositionWords(size, seed), order[k])
  {
    hide IndexOf, WordOf;
    forall k | 0 <= k < |order|
      ensures order[k] in PositionIndices(size, seed) && BytesAlike(PositionWords(size, seed), order[k])
    {
      WordBytesAlike(size, seed, order[k]);
    }
  }

  /** Different indices are enough, whatever is searched for. */
  lemma DistinctComesBack(size: nat, seed: S16, findNum: S16)
    requires size < 0x8000 && AreDistinct(size, seed)
    ensures BuiltComesBack(size, seed, findNum)
  {
    hide IndexOf, WordOf, AlwaysStandsBefore;
    forall order: seq<int> | IsPositionOrder(size, seed, order)
      ensures RunComesBack(order, PositionIndices(size, seed), PositionWords(size, seed), findNum)
    {
      PositionBytesAlike(size, seed, order);
      forall i, j | 0 <= i < j < |order|
        ensures IndexOf(size, seed, order[i]) < IndexOf(size, seed, order[j])
      {
        AreDifferent(size, seed, order[i], order[j]);
      }
    }
  }

  lemma AreDifferent(size: nat, seed: S16, p: int, q: int)
    requires size < 0x8000 && AreDistinct(size, seed) && p != q && 0 <= p < size - 1 && 0 <= q < size - 1
    ensures IndexOf(size, seed, p) != IndexOf(size, seed, q)
  {
    hide IndexOf;
    if p < q {
      assert IndexOf(size, seed, p) != IndexOf(size, seed, q);
    } else {
      assert IndexOf(size, seed, q) != IndexOf(size, seed, p);
    }
  }
}
