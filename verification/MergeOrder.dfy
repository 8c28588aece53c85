/** Sorted runs of cells whose keys come to light only when a comparison first looks at them. */
module MergeOrder {
  import opened Collections

  /** A cell's key, and whether the cell already shows it. */
  datatype Mark = Mark(settled: bool, key: int)

  type Marks<!T> = map<T, Mark>

  type Places<!T> = map<T, int>

  function KeyIn<T>(marks: Marks<T>, x: T): int {
    if x in marks then marks[x].key else 0
  }

  predicate SettledIn<T>(marks: Marks<T>, x: T) {
    x in marks && marks[x].settled
  }

  function PlaceIn<T>(places: Places<T>, x: T): int {
    if x in places then places[x] else 0
  }

  /** Smaller key first; among equal keys, the earlier original place first. */
  ghost predicate Lt<T>(marks: Marks<T>, places: Places<T>, x: T, y: T) {
    || KeyIn(marks, x) < KeyIn(marks, y)
    || (KeyIn(marks, x) == KeyIn(marks, y) && PlaceIn(places, x) < PlaceIn(places, y))
  }

  ghost predicate Ascending<T>(marks: Marks<T>, places: Places<T>, s: seq<T>) {
    forall i, j :: 0 <= i < j < |s| ==> Lt(marks, places, s[i], s[j])
  }

  ghost predicate AllSettled<T>(marks: Marks<T>, s: seq<T>) {
    forall i :: 0 <= i < |s| ==> SettledIn(marks, s[i])
  }

  /** A run of two or more cells is settled and in order; a single cell may still be unsettled. */
  ghost predicate RunOk<T>(marks: Marks<T>, places: Places<T>, s: seq<T>) {
    |s| >= 2 ==> AllSettled(marks, s) && Ascending(marks, places, s)
  }

  ghost predicate InRange<T>(places: Places<T>, s: seq<T>, lo: int, hi: int) {
    forall i :: 0 <= i < |s| ==> lo <= PlaceIn(places, s[i]) < hi
  }

  /** Keys never change, and what is settled stays so. */
  ghost predicate MarksGrow<T>(before: Marks<T>, after: Marks<T>) {
    forall x <- before :: x in after && after[x].key == before[x].key && (before[x].settled ==> after[x].settled)
  }

  lemma MarksGrowTrans<T>(a: Marks<T>, b: Marks<T>, c: Marks<T>)
    requires MarksGrow(a, b) && MarksGrow(b, c)
    ensures MarksGrow(a, c)
  {
  }

  lemma MarksGrowRefl<T>(marks: Marks<T>)
    ensures MarksGrow(marks, marks)
  {
  }

  lemma RunOkGrows<T>(before: Marks<T>, after: Marks<T>, places: Places<T>, s: seq<T>)
    requires RunOk(before, places, s) && MarksGrow(before, after)
    ensures RunOk(after, places, s)
  {
    if |s| >= 2 {
      forall i | 0 <= i < |s|
        ensures SettledIn(after, s[i]) && KeyIn(after, s[i]) == KeyIn(before, s[i])
      {
        assert SettledIn(before, s[i]);
      }
      forall i, j | 0 <= i < j < |s|
        ensures Lt(after, places, s[i], s[j])
      {
        assert Lt(before, places, s[i], s[j]);
      }
    }
  }

  // ----- merging two neighbouring runs

  /** `merged` holds the first `i` cells of `p` and the first `j` of `q`.  With nothing in `q` it is simply
      the start of `p`; otherwise, from the first comparison on, all cells are settled and what has been merged
      precedes what has not. */
  ghost predicate Merging<T>(marks: Marks<T>, places: Places<T>, p: seq<T>, q: seq<T>, i: int, j: int, merged: seq<T>) {
    && 0 <= i <= |p| && 0 <= j <= |q| && |merged| == i + j
    && Elems(merged) == Elems(p[..i]) + Elems(q[..j])
    && Distinct(merged)
    && (q == [] ==> merged == p[..i])
    && (q != [] && merged != [] ==>
          && AllSettled(marks, p) && AllSettled(marks, q)
          && Ascending(marks, places, merged)
          && Precedes(marks, places, merged, p[i..]) && Precedes(marks, places, merged, q[j..]))
  }

  ghost predicate Precedes<T>(marks: Marks<T>, places: Places<T>, s: seq<T>, t: seq<T>) {
    forall i, j :: 0 <= i < |s| && 0 <= j < |t| ==> Lt(marks, places, s[i], t[j])
  }

  /** Two neighbouring runs that may be merged: in order, distinct, and `p` originally all before `q`. */
  ghost predicate Neighbours<T>(marks: Marks<T>, places: Places<T>, p: seq<T>, q: seq<T>, lo: int, mid: int, hi: int) {
    && RunOk(marks, places, p) && RunOk(marks, places, q)
    && InRange(places, p, lo, mid) && InRange(places, q, mid, hi)
    && Distinct(p) && Distinct(q)
    && Elems(p) !! Elems(q)
  }

  lemma StartMerging<T>(marks: Marks<T>, places: Places<T>, p: seq<T>, q: seq<T>)
    ensures Merging(marks, places, p, q, 0, 0, [])
  {
  }

  lemma NeighboursGrow<T>(before: Marks<T>, after: Marks<T>, places: Places<T>, p: seq<T>, q: seq<T>,
                          lo: int, mid: int, hi: int)
    requires Neighbours(before, places, p, q, lo, mid, hi) && MarksGrow(before, after)
    ensures Neighbours(after, places, p, q, lo, mid, hi)
  {
    RunOkGrows(before, after, places, p);
    RunOkGrows(before, after, places, q);
  }

  lemma KeysStay<T>(before: Marks<T>, after: Marks<T>, s: seq<T>)
    requires AllSettled(before, s) && MarksGrow(before, after)
    ensures AllSettled(after, s)
    ensures forall i :: 0 <= i < |s| ==> KeyIn(after, s[i]) == KeyIn(before, s[i])
  {
    forall i | 0 <= i < |s|
      ensures SettledIn(after, s[i]) && KeyIn(after, s[i]) == KeyIn(before, s[i])
    {
      assert SettledIn(before, s[i]);
    }
  }

  lemma MergingGrows<T>(before: Marks<T>, after: Marks<T>, places: Places<T>, p: seq<T>, q: seq<T>, i: int, j: int,
                        merged: seq<T>)
    requires Merging(before, places, p, q, i, j, merged) && MarksGrow(before, after)
    ensures Merging(after, places, p, q, i, j, merged)
  {
    if q != [] && merged != [] {
      KeysStay(before, after, p);
      KeysStay(before, after, q);
      forall k | 0 <= k < |merged|
        ensures KeyIn(after, merged[k]) == KeyIn(before, merged[k])
      {
        assert merged[k] in Elems(merged);
      }
      forall k, l | 0 <= k < l < |merged|
        ensures Lt(after, places, merged[k], merged[l])
      {
        assert Lt(before, places, merged[k], merged[l]);
      }
      PrecedesGrows(before, after, places, merged, p, i);
      PrecedesGrows(before, after, places, merged, q, j);
    }
  }

  lemma PrecedesGrows<T>(before: Marks<T>, after: Marks<T>, places: Places<T>, s: seq<T>, t: seq<T>, from: int)
    requires 0 <= from <= |t| && Precedes(before, places, s, t[from..])
    requires forall k :: 0 <= k < |s| ==> KeyIn(after, s[k]) == KeyIn(before, s[k])
    requires forall k :: 0 <= k < |t| ==> KeyIn(after, t[k]) == KeyIn(before, t[k])
    ensures Precedes(after, places, s, t[from..])
  {
    forall k, l | 0 <= k < |s| && 0 <= l < |t[from..]|
      ensures Lt(after, places, s[k], t[from..][l])
    {
      assert Lt(before, places, s[k], t[from..][l]);
      assert t[from..][l] == t[from + l];
    }
  }

  /** After the first comparison every cell of both runs is settled. */
  lemma ComparedIsSettled<T>(marks: Marks<T>, places: Places<T>, p: seq<T>, q: seq<T>, i: int, j: int, merged: seq<T>,
                             lo: int, mid: int, hi: int)
    requires Neighbours(marks, places, p, q, lo, mid, hi)
    requires Merging(marks, places, p, q, i, j, merged)
    requires i < |p| && j < |q| && SettledIn(marks, p[i]) && SettledIn(marks, q[j])
    ensures AllSettled(marks, p) && AllSettled(marks, q)
  {
  }

  /** Adding one more cell to what has been merged. */
  lemma Extend<T>(marks: Marks<T>, places: Places<T>, merged: seq<T>, e: T)
    requires Ascending(marks, places, merged) && Precedes(marks, places, merged, [e])
    ensures Ascending(marks, places, merged + [e])
  {
    var m := merged + [e];
    forall k, l | 0 <= k < l < |m|
      ensures Lt(marks, places, m[k], m[l])
    {
      if l == |merged| {
        assert Lt(marks, places, merged[k], [e][0]);
      }
    }
  }

  lemma PrefixSnoc<T>(s: seq<T>, i: int)
    requires 0 <= i < |s|
    ensures s[..i + 1] == s[..i] + [s[i]] && s[i..] == [s[i]] + s[i + 1..]
  {
  }

  lemma PrecedesRest<T>(marks: Marks<T>, places: Places<T>, merged: seq<T>, e: T, t: seq<T>, from: int)
    requires 0 <= from <= |t| && Precedes(marks, places, merged, t[from..])
    requires forall l :: from <= l < |t| ==> Lt(marks, places, e, t[l])
    ensures Precedes(marks, places, merged + [e], t[from..])
  {
    var m := merged + [e];
    forall k, l | 0 <= k < |m| && 0 <= l < |t[from..]|
      ensures Lt(marks, places, m[k], t[from..][l])
    {
      assert t[from..][l] == t[from + l];
    }
  }

  lemma PrecedesTail<T>(marks: Marks<T>, places: Places<T>, merged: seq<T>, t: seq<T>, from: int)
    requires 0 <= from < |t| && Precedes(marks, places, merged, t[from..])
    ensures Precedes(marks, places, merged, t[from + 1..]) && Precedes(marks, places, merged, [t[from]])
  {
    var rest := t[from + 1..];
    forall k, l | 0 <= k < |merged| && 0 <= l < |rest|
      ensures Lt(marks, places, merged[k], rest[l])
    {
      assert rest[l] == t[from..][l + 1];
    }
    forall k | 0 <= k < |merged|
      ensures Lt(marks, places, merged[k], t[from])
    {
      assert t[from] == t[from..][0];
    }
  }

  lemma TakeMembers<T>(p: seq<T>, q: seq<T>, i: int, j: int, merged: seq<T>)
    requires 0 <= i < |p| && 0 <= j <= |q|
    requires Distinct(p) && Elems(p) !! Elems(q)
    requires Elems(merged) == Elems(p[..i]) + Elems(q[..j])
    requires Distinct(merged)
    ensures Elems(merged + [p[i]]) == Elems(p[..i + 1]) + Elems(q[..j])
    ensures Distinct(merged + [p[i]])
  {
    PrefixSnoc(p, i);
    assert p[i] in Elems(p) && p[i] !in Elems(q);
    assert p[i] !in q[..j];
    assert p[i] !in p[..i];
    assert p[i] !in Elems(merged);
    assert Elems(merged + [p[i]]) == Elems(merged) + {p[i]};
    assert Elems(p[..i + 1]) == Elems(p[..i]) + {p[i]};
  }

  lemma TakeMembersRight<T>(p: seq<T>, q: seq<T>, i: int, j: int, merged: seq<T>)
    requires 0 <= i <= |p| && 0 <= j < |q|
    requires Distinct(q) && Elems(p) !! Elems(q)
    requires Elems(merged) == Elems(p[..i]) + Elems(q[..j])
    requires Distinct(merged)
    ensures Elems(merged + [q[j]]) == Elems(p[..i]) + Elems(q[..j + 1])
    ensures Distinct(merged + [q[j]])
  {
    PrefixSnoc(q, j);
    assert q[j] in Elems(q) && q[j] !in Elems(p);
    assert q[j] !in p[..i];
    assert q[j] !in q[..j];
    assert q[j] !in Elems(merged);
    assert Elems(merged + [q[j]]) == Elems(merged) + {q[j]};
    assert Elems(q[..j + 1]) == Elems(q[..j]) + {q[j]};
  }

  /** Taking the head of `p` when `q` is exhausted or its head is not smaller. */
  lemma TakeLeft<T>(marks: Marks<T>, places: Places<T>, p: seq<T>, q: seq<T>, i: int, j: int, merged: seq<T>,
                    lo: int, mid: int, hi: int)
    requires Neighbours(marks, places, p, q, lo, mid, hi)
    requires Merging(marks, places, p, q, i, j, merged)
    requires i < |p|
    requires q != [] && j < |q| ==>
      AllSettled(marks, p) && AllSettled(marks, q) && KeyIn(marks, p[i]) <= KeyIn(marks, q[j])
    ensures Merging(marks, places, p, q, i + 1, j, merged + [p[i]])
  {
    var e := p[i];
    TakeMembers(p, q, i, j, merged);
    PrefixSnoc(p, i);
    if q != [] {
      assert AllSettled(marks, p) && AllSettled(marks, q) by {
        if j == |q| {
          assert merged != [];
        }
      }
      if merged != [] {
        PrecedesTail(marks, places, merged, p, i);
        Extend(marks, places, merged, e);
      } else {
        assert merged + [e] == [e];
      }
      forall l | j <= l < |q|
        ensures Lt(marks, places, e, q[l])
      {
        if l > j {
          assert Lt(marks, places, q[j], q[l]);
        }
      }
      PrecedesRest(marks, places, merged, e, p, i + 1);
      PrecedesRest(marks, places, merged, e, q, j);
    }
  }

  /** Taking the head of `q` when `p` is exhausted or its head is larger. */
  lemma TakeRight<T>(marks: Marks<T>, places: Places<T>, p: seq<T>, q: seq<T>, i: int, j: int, merged: seq<T>,
                     lo: int, mid: int, hi: int)
    requires Neighbours(marks, places, p, q, lo, mid, hi)
    requires Merging(marks, places, p, q, i, j, merged)
    requires j < |q| && (i == |p| ==> p != [])
    requires i < |p| ==> AllSettled(marks, p) && AllSettled(marks, q) && KeyIn(marks, q[j]) < KeyIn(marks, p[i])
    ensures Merging(marks, places, p, q, i, j + 1, merged + [q[j]])
  {
    var e := q[j];
    TakeMembersRight(p, q, i, j, merged);
    PrefixSnoc(q, j);
    assert AllSettled(marks, p) && AllSettled(marks, q) by {
      if i == |p| {
        assert merged != [];
      }
    }
    if merged != [] {
      PrecedesTail(marks, places, merged, q, j);
      Extend(marks, places, merged, e);
    } else {
      assert merged + [e] == [e];
    }
    forall l | i <= l < |p|
      ensures Lt(marks, places, e, p[l])
    {
      if l > i {
        assert Lt(marks, places, p[i], p[l]);
      }
    }
    PrecedesRest(marks, places, merged, e, p, i);
    PrecedesRest(marks, places, merged, e, q, j + 1);
  }

  /** A finished merge is one run over the combined range. */
  lemma MergedIsRun<T>(marks: Marks<T>, places: Places<T>, p: seq<T>, q: seq<T>, merged: seq<T>, lo: int, mid: int,
                       hi: int)
    requires Neighbours(marks, places, p, q, lo, mid, hi)
    requires Merging(marks, places, p, q, |p|, |q|, merged)
    requires lo <= mid <= hi
    ensures RunOk(marks, places, merged) && InRange(places, merged, lo, hi)
  {
    assert p[..|p|] == p && q[..|q|] == q;
    forall k | 0 <= k < |merged|
      ensures lo <= PlaceIn(places, merged[k]) < hi
    {
      assert merged[k] in Elems(merged);
    }
    if q != [] && |merged| >= 2 {
      forall k | 0 <= k < |merged|
        ensures SettledIn(marks, merged[k])
      {
        assert merged[k] in Elems(merged);
      }
    }
  }

  // ----- uniqueness

  lemma AscendingTail<T>(marks: Marks<T>, places: Places<T>, s: seq<T>)
    requires s != [] && Ascending(marks, places, s)
    ensures Ascending(marks, places, s[1..]) && Elems(s[1..]) == Elems(s) - {s[0]}
  {
    forall i, j | 0 <= i < j < |s[1..]|
      ensures Lt(marks, places, s[1..][i], s[1..][j])
    {
      assert s[1..][i] == s[i + 1] && s[1..][j] == s[j + 1];
    }
    forall x | x in Elems(s[1..])
      ensures x != s[0]
    {
      var i :| 0 <= i < |s[1..]| && s[1..][i] == x;
      assert Lt(marks, places, s[0], s[i + 1]);
    }
    assert s == [s[0]] + s[1..];
  }

  /** Only one arrangement of a set of cells is in order. */
  lemma {:induction false} OneAscendingOrder<T>(marks: Marks<T>, places: Places<T>, s: seq<T>, t: seq<T>)
    requires Ascending(marks, places, s) && Ascending(marks, places, t)
    requires Elems(s) == Elems(t) && |s| == |t|
    ensures s == t
    decreases |s|
  {
    if s != [] {
      assert s[0] in Elems(t) && t[0] in Elems(s);
      var i :| 0 <= i < |s| && s[i] == t[0];
      var j :| 0 <= j < |t| && t[j] == s[0];
      assert forall k :: 0 < k < |s| ==> Lt(marks, places, s[0], s[k]);
      assert forall k :: 0 < k < |t| ==> Lt(marks, places, t[0], t[k]);
      AscendingTail(marks, places, s);
      AscendingTail(marks, places, t);
      OneAscendingOrder(marks, places, s[1..], t[1..]);
      assert s == [s[0]] + s[1..] && t == [t[0]] + t[1..];
    }
  }
}
