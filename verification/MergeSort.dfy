/** The iterative bottom-up mergesort, which relinks the cells in place. */
module MergeSort {
  import opened Arithmetic
  import opened Collections
  import opened ListCells
  import opened MergeOrder

  /** `list` and `tail` are the ends of the chain `out`; what follows the tail is left open. */
  ghost predicate OutChain(list: Cell?, tail: Cell?, out: seq<Cell>)
    reads out`next
  {
    && (out == [] ==> list == null && tail == null)
    && (out != [] ==> list == out[0] && tail == out[|out| - 1])
    && (forall k {:trigger out[k].next} :: 0 <= k < |out| - 1 ==> out[k].next == NodeAt(out, k + 1))
  }

  /** Positions `i..b` and `j..` of `cells` are still to be merged: their links are untouched. */
  ghost predicate Untouched(cells: seq<Cell>, i: int, b: int, j: int)
    reads cells`next
  {
    forall k {:trigger cells[k].next} :: 0 <= k < |cells| && (i <= k < b || j <= k) ==>
      cells[k].next == NodeAt(cells, k + 1)
  }

  ghost predicate Consumed(cells: seq<Cell>, i: int, b: int, j: int, out: seq<Cell>) {
    && 0 <= i <= b <= j <= |cells|
    && Elems(out) == Elems(cells[..i]) + Elems(cells[b..j])
    && Distinct(out)
    && |out| == i + (j - b)
  }

  /** What has not been consumed is not in the output. */
  lemma UnconsumedIsElsewhere(cells: seq<Cell>, i: int, b: int, j: int, out: seq<Cell>)
    requires Distinct(cells) && Consumed(cells, i, b, j, out)
    ensures forall k :: 0 <= k < |cells| && (i <= k < b || j <= k) ==> cells[k] !in out
  {
    forall k | 0 <= k < |cells| && (i <= k < b || j <= k)
      ensures cells[k] !in out
    {
      assert cells[k] !in cells[..i] && cells[k] !in cells[b..j];
      assert cells[k] !in Elems(out);
    }
  }

  lemma ConsumeLeft(cells: seq<Cell>, i: int, b: int, j: int, out: seq<Cell>)
    requires Distinct(cells) && Consumed(cells, i, b, j, out) && i < b
    ensures Consumed(cells, i + 1, b, j, out + [cells[i]])
  {
    UnconsumedIsElsewhere(cells, i, b, j, out);
    PrefixSnoc(cells, i);
    assert Elems(cells[..i + 1]) == Elems(cells[..i]) + {cells[i]};
    assert Elems(out + [cells[i]]) == Elems(out) + {cells[i]};
  }

  lemma ConsumeRight(cells: seq<Cell>, i: int, b: int, j: int, out: seq<Cell>)
    requires Distinct(cells) && Consumed(cells, i, b, j, out) && j < |cells|
    ensures Consumed(cells, i, b, j + 1, out + [cells[j]])
  {
    UnconsumedIsElsewhere(cells, i, b, j, out);
    assert cells[b..j + 1] == cells[b..j] + [cells[j]];
    assert Elems(cells[b..j + 1]) == Elems(cells[b..j]) + {cells[j]};
    assert Elems(out + [cells[j]]) == Elems(out) + {cells[j]};
  }

  lemma ConsumedAll(cells: seq<Cell>, b: int, c: int, out: seq<Cell>)
    requires Consumed(cells, b, b, c, out)
    ensures Consumed(cells, c, c, c, out)
  {
    assert cells[..c] == cells[..b] + cells[b..c];
    assert Elems(cells[..c]) == Elems(cells[..b]) + Elems(cells[b..c]);
  }

  lemma StartConsumed(cells: seq<Cell>, a: int, b: int, out: seq<Cell>)
    requires Consumed(cells, a, a, a, out) && a <= b <= |cells|
    ensures Consumed(cells, a, b, b, out) && |out| == a
  {
    assert Elems(cells[a..a]) == {} && Elems(cells[b..b]) == {};
  }

  lemma TailIsMerged(cells: seq<Cell>, i: int, b: int, j: int, list: Cell?, tail: Cell?, out: seq<Cell>)
    requires Consumed(cells, i, b, j, out) && OutChain(list, tail, out)
    ensures Distinct(out)
    ensures tail != null ==> tail in out && tail in cells
  {
    if tail != null {
      assert tail in Elems(out);
      assert Elems(cells[..i]) <= Elems(cells) && Elems(cells[b..j]) <= Elems(cells);
    }
  }

  lemma NextIs(cells: seq<Cell>, i: int, b: int, j: int, k: int)
    requires Untouched(cells, i, b, j) && 0 <= k < |cells| && (i <= k < b || j <= k)
    ensures cells[k].next == NodeAt(cells, k + 1)
  {
  }

  /** Links one more cell to the end of the merged list. */
  method Append(list0: Cell?, tail0: Cell?, e: Cell, ghost out: seq<Cell>, ghost cells: seq<Cell>,
                ghost i: int, ghost b: int, ghost j: int, order: Order, ghost marks: Marks<Cell>,
                ghost records: Records) returns (list: Cell?, tail: Cell?)
    requires OutChain(list0, tail0, out) && e !in out && IsElsewhere(cells, i, b, j, tail0, out)
    requires Untouched(cells, i, b, j)
    requires Agrees(order, cells, marks) && Holds(cells, records) && InfosApart(cells)
    modifies cells`next
    ensures Agrees(order, cells, marks) && Holds(cells, records)
    ensures SameInfos(cells)
    ensures OutChain(list, tail, out + [e])
    ensures Untouched(cells, i, b, j)
  {
    list := list0;
    if tail0 != null {
      assert tail0 in out;
      tail0.next := e;
    } else {
      list := e;
    }
    tail := e;
  }

  /** The next comparison settles both heads; everything settled stays as it is. */
  method CompareHeads(order: Order, p: Cell, q: Cell, ghost cells: seq<Cell>, ghost i: int, ghost j: int,
                      ghost marks0: Marks<Cell>, ghost records: Records) returns (r: int, ghost marks: Marks<Cell>)
    requires 0 <= i < j < |cells| && p == cells[i] && q == cells[j]
    requires Distinct(cells) && InfosApart(cells)
    requires Agrees(order, cells, marks0) && Holds(cells, records)
    modifies Infos(cells)`data16, Footprint(order)`crc, Footprint(order)`crcstate, Footprint(order)`crcmatrix
    ensures Holds(cells, records)
    ensures SameInfos(cells)
    ensures Agrees(order, cells, marks) && MarksGrow(marks0, marks)
    ensures SettledIn(marks, p) && SettledIn(marks, q)
    ensures r <= 0 <==> KeyIn(marks, p) <= KeyIn(marks, q)
  {
    hide KeyOf, Settled, High;
    assert p.info in Infos(cells) && q.info in Infos(cells);
    var a, b := p.info, q.info;
    ghost var markA, markB := MarkOf(order, a), MarkOf(order, b);
    assert marks0[p] == markA && marks0[q] == markB;
    r := Compare(order, a, b);
    marks := marks0[p := MarkOf(order, a)][q := MarkOf(order, b)];
    forall k | 0 <= k < |cells|
      ensures cells[k] in marks && marks[cells[k]] == MarkOf(order, cells[k].info)
      ensures cells[k] in records && records[cells[k]] == RecordOf(cells[k])
    {
      if k != i && k != j {
        assert cells[k].info != a && cells[k].info != b;
        assert cells[k] != p && cells[k] != q;
      }
    }
    assert MarkOf(order, a).key == markA.key && MarkOf(order, b).key == markB.key;
  }

  /** Where the merge of `cells[a..b]` with `cells[b..c]` stands. */
  ghost predicate Midway(order: Order, cells: seq<Cell>, a: int, i: int, b: int, j: int, c: int, out0: seq<Cell>,
                         merged: seq<Cell>, marks: Marks<Cell>, places: Places<Cell>)
  {
    && 0 <= a <= i <= b <= j <= c <= |cells| && a < b
    && Distinct(cells)
    && Consumed(cells, i, b, j, out0 + merged)
    && Neighbours(marks, places, cells[a..b], cells[b..c], a, b, c)
    && Merging(marks, places, cells[a..b], cells[b..c], i - a, j - b, merged)
  }

  lemma StartMidway(order: Order, cells: seq<Cell>, a: int, b: int, c: int, out0: seq<Cell>, marks: Marks<Cell>,
                    places: Places<Cell>)
    requires 0 <= a < b <= c <= |cells| && Distinct(cells) && Consumed(cells, a, a, a, out0)
    requires Neighbours(marks, places, cells[a..b], cells[b..c], a, b, c)
    ensures Midway(order, cells, a, a, b, b, c, out0, [], marks, places) && |out0| == a
  {
    hide Merging, Neighbours, Consumed, AllSettled, Distinct, OutChain, RunOk, InRange;
    StartConsumed(cells, a, b, out0);
    assert out0 + [] == out0;
    StartMerging(marks, places, cells[a..b], cells[b..c]);
  }

  lemma SettleMidway(order: Order, cells: seq<Cell>, a: int, i: int, b: int, j: int, c: int, out0: seq<Cell>,
                     merged: seq<Cell>, before: Marks<Cell>, marks: Marks<Cell>, places: Places<Cell>)
    requires Midway(order, cells, a, i, b, j, c, out0, merged, before, places) && MarksGrow(before, marks)
    requires i < b && j < c && SettledIn(marks, cells[i]) && SettledIn(marks, cells[j])
    ensures Midway(order, cells, a, i, b, j, c, out0, merged, marks, places)
    ensures AllSettled(marks, cells[a..b]) && AllSettled(marks, cells[b..c])
  {
    hide Merging, Neighbours, Consumed, AllSettled, Distinct, OutChain, RunOk, InRange;
    var left, right := cells[a..b], cells[b..c];
    NeighboursGrow(before, marks, places, left, right, a, b, c);
    MergingGrows(before, marks, places, left, right, i - a, j - b, merged);
    ComparedIsSettled(marks, places, left, right, i - a, j - b, merged, a, b, c);
  }

  /** The next cell may come from the chosen side: the other side is exhausted or its head goes later. */
  ghost predicate Chosen(cells: seq<Cell>, a: int, i: int, b: int, j: int, c: int, marks: Marks<Cell>, fromLeft: bool) {
    && 0 <= a <= i <= b <= j <= c <= |cells|
    && (if fromLeft then i < b else j < c)
    && (i < b && j < c ==>
          && AllSettled(marks, cells[a..b]) && AllSettled(marks, cells[b..c])
          && (fromLeft <==> KeyIn(marks, cells[i]) <= KeyIn(marks, cells[j])))
  }

  lemma MidwayTake(order: Order, cells: seq<Cell>, a: int, i: int, b: int, j: int, c: int, out0: seq<Cell>,
                   merged: seq<Cell>, marks: Marks<Cell>, places: Places<Cell>, fromLeft: bool)
    requires Midway(order, cells, a, i, b, j, c, out0, merged, marks, places)
    requires Chosen(cells, a, i, b, j, c, marks, fromLeft)
    ensures 0 <= a <= i <= b <= j <= c <= |cells| && (if fromLeft then i < b else j < c)
    ensures var e := cells[if fromLeft then i else j];
            Midway(order, cells, a, if fromLeft then i + 1 else i, b, if fromLeft then j else j + 1, c,
                   out0, merged + [e], marks, places)
  {
    hide Merging, Neighbours, Consumed, AllSettled, Distinct, OutChain, RunOk, InRange;
    if fromLeft {
      assert cells[a..b][i - a] == cells[i];
      TakeLeft(marks, places, cells[a..b], cells[b..c], i - a, j - b, merged, a, b, c);
      ConsumeLeft(cells, i, b, j, out0 + merged);
      assert out0 + merged + [cells[i]] == out0 + (merged + [cells[i]]);
    } else {
      assert cells[b..c][j - b] == cells[j];
      TakeRight(marks, places, cells[a..b], cells[b..c], i - a, j - b, merged, a, b, c);
      ConsumeRight(cells, i, b, j, out0 + merged);
      assert out0 + merged + [cells[j]] == out0 + (merged + [cells[j]]);
    }
  }

  lemma FinishMidway(order: Order, cells: seq<Cell>, a: int, b: int, c: int, out0: seq<Cell>,
                     merged: seq<Cell>, marks: Marks<Cell>, places: Places<Cell>)
    requires Midway(order, cells, a, b, b, c, c, out0, merged, marks, places) && |out0| == a
    ensures Consumed(cells, c, c, c, out0 + merged) && |out0 + merged| == c
    ensures RunOk(marks, places, (out0 + merged)[a..]) && InRange(places, (out0 + merged)[a..], a, c)
  {
    hide Merging, Neighbours, Consumed, AllSettled, Distinct, OutChain, RunOk, InRange;
    ConsumedAll(cells, b, c, out0 + merged);
    MergedIsRun(marks, places, cells[a..b], cells[b..c], merged, a, b, c);
    assert (out0 + merged)[a..] == merged;
  }

  /** The merged cells are distinct, end in one of `cells`, and are none of those still to be merged. */
  ghost predicate IsElsewhere(cells: seq<Cell>, i: int, b: int, j: int, tail: Cell?, out: seq<Cell>) {
    && Distinct(out) && (tail != null ==> tail in cells)
    && forall k :: 0 <= k < |cells| && (i <= k < b || j <= k) ==> cells[k] !in out
  }

  lemma MidwayApart(order: Order, cells: seq<Cell>, a: int, i: int, b: int, j: int, c: int, out0: seq<Cell>,
                    merged: seq<Cell>, marks: Marks<Cell>, places: Places<Cell>, list: Cell?, tail: Cell?)
    requires Midway(order, cells, a, i, b, j, c, out0, merged, marks, places)
    requires OutChain(list, tail, out0 + merged)
    ensures 0 <= a <= i <= b <= j <= c <= |cells| && IsElsewhere(cells, i, b, j, tail, out0 + merged)
  {
    hide Merging, Neighbours, Consumed, AllSettled, Distinct, OutChain, RunOk, InRange;
    TailIsMerged(cells, i, b, j, list, tail, out0 + merged);
    UnconsumedIsElsewhere(cells, i, b, j, out0 + merged);
  }

  lemma Regroup(s: seq<Cell>, t: seq<Cell>, e: Cell)
    ensures s + t + [e] == s + (t + [e])
  {
  }

  /** Decides which head goes next, comparing only when both sides have one. */
  method Choose(order: Order, p: Cell?, q: Cell?, psize: int, qsize: int, ghost cells: seq<Cell>, ghost a: int,
                ghost i: int, ghost b: int, ghost j: int, ghost c: int, ghost out0: seq<Cell>,
                ghost merged: seq<Cell>, ghost marks0: Marks<Cell>, ghost places: Places<Cell>,
                ghost records: Records) returns (fromLeft: bool, ghost marks: Marks<Cell>)
    requires Distinct(cells) && InfosApart(cells)
    requires Agrees(order, cells, marks0) && Holds(cells, records)
    requires Midway(order, cells, a, i, b, j, c, out0, merged, marks0, places)
    requires 0 <= a <= i <= b <= j <= c <= |cells|
    requires psize == b - i && (i < b ==> p == cells[i]) && q == NodeAt(cells, j)
    requires (qsize > 0 && q != null) <==> j < c
    requires i < b || j < c
    modifies Infos(cells)`data16, Footprint(order)`crc, Footprint(order)`crcstate, Footprint(order)`crcmatrix
    ensures SameInfos(cells) && Holds(cells, records)
    ensures Agrees(order, cells, marks) && MarksGrow(marks0, marks)
    ensures Midway(order, cells, a, i, b, j, c, out0, merged, marks, places)
    ensures Chosen(cells, a, i, b, j, c, marks, fromLeft)
    ensures if fromLeft then i < b else j < c
  {
    hide Midway, Agrees, Holds, InfosApart, Infos, AllSettled, MarksGrow, Distinct;
    marks := marks0;
    MarksGrowRefl(marks0);
    if psize == 0 {
      fromLeft := false;
    } else if qsize <= 0 || q == null {
      fromLeft := true;
    } else {
      var r;
      r, marks := CompareHeads(order, p, q, cells, i, j, marks0, records);
      fromLeft := r <= 0;
      SettleMidway(order, cells, a, i, b, j, c, out0, merged, marks0, marks, places);
    }
  }

  /** Takes the chosen head off its run and links it to the merged list. */
  method Take(order: Order, list0: Cell?, tail0: Cell?, p0: Cell?, q0: Cell?, fromLeft: bool, ghost cells: seq<Cell>,
              ghost i: int, ghost b: int, ghost j: int, ghost out0: seq<Cell>, ghost merged: seq<Cell>,
              ghost marks: Marks<Cell>, ghost records: Records)
    returns (list: Cell?, tail: Cell?, p: Cell?, q: Cell?, ghost e: Cell)
    requires 0 <= i <= b <= j <= |cells| && (if fromLeft then i < b else j < |cells|)
    requires IsElsewhere(cells, i, b, j, tail0, out0 + merged)
    requires (i < b ==> p0 == cells[i]) && q0 == NodeAt(cells, j)
    requires Untouched(cells, i, b, j) && OutChain(list0, tail0, out0 + merged)
    requires Agrees(order, cells, marks) && Holds(cells, records) && InfosApart(cells)
    modifies cells`next
    ensures SameInfos(cells) && Agrees(order, cells, marks) && Holds(cells, records)
    ensures e == cells[if fromLeft then i else j]
    ensures OutChain(list, tail, out0 + (merged + [e]))
    ensures Untouched(cells, if fromLeft then i + 1 else i, b, if fromLeft then j else j + 1)
    ensures if fromLeft then (i + 1 < b ==> p == cells[i + 1]) && q == q0 else p == p0 && q == NodeAt(cells, j + 1)
  {
    hide OutChain, Agrees, Holds, Untouched, Distinct, InfosApart, Infos;
    NextIs(cells, i, b, j, if fromLeft then i else j);
    p, q := p0, q0;
    var cell: Cell;
    if fromLeft {
      cell := p;
      p := p.next;
    } else {
      cell := q;
      q := q.next;
    }
    e := cell;
    list, tail := Append(list0, tail0, cell, out0 + merged, cells, i, b, j, order, marks, records);
    FewerUntouched(cells, i, b, j, if fromLeft then i + 1 else i, if fromLeft then j else j + 1);
    Regroup(out0, merged, e);
  }

  /** Chooses a head and takes it. */
  method MergeOne(order: Order, list0: Cell?, tail0: Cell?, p0: Cell?, q0: Cell?, psize: int, qsize: int,
                  ghost cells: seq<Cell>, ghost a: int, ghost i: int, ghost b: int, ghost j: int, ghost c: int,
                  ghost out0: seq<Cell>, ghost merged: seq<Cell>, ghost marks0: Marks<Cell>,
                  ghost places: Places<Cell>, ghost records: Records)
    returns (fromLeft: bool, list: Cell?, tail: Cell?, p: Cell?, q: Cell?, ghost e: Cell, ghost marks: Marks<Cell>)
    requires Distinct(cells) && InfosApart(cells) && 0 <= a <= i <= b <= j <= c <= |cells|
    requires psize == b - i && (i < b ==> p0 == cells[i]) && q0 == NodeAt(cells, j)
    requires ((qsize > 0 && q0 != null) <==> j < c) && (i < b || j < c)
    requires Untouched(cells, i, b, j) && OutChain(list0, tail0, out0 + merged)
    requires Agrees(order, cells, marks0) && Holds(cells, records)
    requires Midway(order, cells, a, i, b, j, c, out0, merged, marks0, places)
    modifies cells`next, Infos(cells)`data16
    modifies Footprint(order)`crc, Footprint(order)`crcstate, Footprint(order)`crcmatrix
    ensures SameInfos(cells) && Holds(cells, records) && Agrees(order, cells, marks) && MarksGrow(marks0, marks)
    ensures if fromLeft then i < b else j < c
    ensures OutChain(list, tail, out0 + (merged + [e]))
    ensures Untouched(cells, if fromLeft then i + 1 else i, b, if fromLeft then j else j + 1)
    ensures if fromLeft then (i + 1 < b ==> p == cells[i + 1]) && q == q0 else p == p0 && q == NodeAt(cells, j + 1)
    ensures Midway(order, cells, a, if fromLeft then i + 1 else i, b, if fromLeft then j else j + 1, c, out0,
                   merged + [e], marks, places)
  {
    hide Midway, Consumed, OutChain, RunOk, InRange, MarksGrow, Agrees, Holds, Untouched, Neighbours, Distinct,
         InfosApart, Infos, Chosen, IsElsewhere;
    fromLeft, marks := Choose(order, p0, q0, psize, qsize, cells, a, i, b, j, c, out0, merged, marks0, places, records);
    MidwayApart(order, cells, a, i, b, j, c, out0, merged, marks, places, list0, tail0);
    MidwayTake(order, cells, a, i, b, j, c, out0, merged, marks, places, fromLeft);
    list, tail, p, q, e := Take(order, list0, tail0, p0, q0, fromLeft, cells, i, b, j, out0, merged, marks, records);
  }

  /** Merges the run `cells[a..b]`, which starts at `p`, with the run `cells[b..c]`, which starts at `q`. */
  method MergeRuns(order: Order, list0: Cell?, tail0: Cell?, p0: Cell, psize0: int, q0: Cell?, insize: int,
                   ghost cells: seq<Cell>, ghost a: int, ghost b: int, ghost c: int, ghost out0: seq<Cell>,
                   ghost marks0: Marks<Cell>, ghost places: Places<Cell>, ghost records: Records)
    returns (list: Cell?, tail: Cell?, q: Cell?, ghost out: seq<Cell>, ghost marks: Marks<Cell>)
    requires Distinct(cells) && InfosApart(cells)
    requires 0 <= a < b <= c <= |cells| && c <= b + insize && (c < |cells| ==> c == b + insize)
    requires p0 == cells[a] && psize0 == b - a && q0 == NodeAt(cells, b)
    requires Untouched(cells, a, a, a) && Consumed(cells, a, a, a, out0) && OutChain(list0, tail0, out0)
    requires Agrees(order, cells, marks0) && Holds(cells, records)
    requires Neighbours(marks0, places, cells[a..b], cells[b..c], a, b, c)
    modifies cells`next, Infos(cells)`data16
    modifies Footprint(order)`crc, Footprint(order)`crcstate, Footprint(order)`crcmatrix
    ensures SameInfos(cells) && Holds(cells, records)
    ensures Untouched(cells, c, c, c) && Consumed(cells, c, c, c, out) && OutChain(list, tail, out)
    ensures q == NodeAt(cells, c)
    ensures |out| == c && out0 <= out
    ensures Agrees(order, cells, marks) && MarksGrow(marks0, marks)
    ensures RunOk(marks, places, out[a..]) && InRange(places, out[a..], a, c)
  {
    hide Midway, Consumed, OutChain, RunOk, InRange, MarksGrow, Agrees, Holds, Untouched, Neighbours, Distinct,
         InfosApart, Infos, Chosen, IsElsewhere;
    list, tail, q, marks := list0, tail0, q0, marks0;
    var p: Cell? := p0;
    var psize, qsize := psize0, insize;
    ghost var i, j, infos := a, b, Infos(cells);
    ghost var merged: seq<Cell> := [];
    StartMidway(order, cells, a, b, c, out0, marks, places);
    assert out0 + merged == out0;
    MarksGrowRefl(marks0);
    StartUntouched(cells, a, b);
    while psize > 0 || (qsize > 0 && q != null)
      invariant a <= i <= b <= j <= c
      invariant psize == b - i && qsize == insize - (j - b)
      invariant i < b ==> p == cells[i]
      invariant q == NodeAt(cells, j)
      invariant InfosApart(cells) && Infos(cells) == infos
      invariant Holds(cells, records)
      invariant Untouched(cells, i, b, j) && OutChain(list, tail, out0 + merged)
      invariant Agrees(order, cells, marks) && MarksGrow(marks0, marks)
      invariant Midway(order, cells, a, i, b, j, c, out0, merged, marks, places)
      decreases b - i + c - j
    {
      ghost var before := marks;
      var fromLeft;
      ghost var e;
      fromLeft, list, tail, p, q, e, marks :=
        MergeOne(order, list, tail, p, q, psize, qsize, cells, a, i, b, j, c, out0, merged, marks, places, records);
      MarksGrowTrans(marks0, before, marks);
      merged := merged + [e];
      if fromLeft {
        psize := psize - 1;
        i := i + 1;
      } else {
        qsize := qsize - 1;
        j := j + 1;
      }
    }
    FinishMidway(order, cells, a, b, c, out0, merged, marks, places);
    out := out0 + merged;
    FinishUntouched(cells, b, c);
  }

  lemma FewerUntouched(cells: seq<Cell>, i: int, b: int, j: int, i': int, j': int)
    requires Untouched(cells, i, b, j) && i <= i' && j <= j'
    ensures Untouched(cells, i', b, j')
  {
  }

  lemma StartUntouched(cells: seq<Cell>, a: int, b: int)
    requires Untouched(cells, a, a, a) && a <= b
    ensures Untouched(cells, a, b, b)
  {
  }

  lemma FinishUntouched(cells: seq<Cell>, b: int, c: int)
    requires Untouched(cells, b, b, c)
    ensures Untouched(cells, c, c, c)
  {
  }

  // ----- one pass over the list

  /** Positions where the runs of `s` begin, ending with |s|.  Every run holds `insize` cells, except the one
      that reaches `total`; each is in order and holds the cells that started out in its range. */
  ghost predicate Runs(marks: Marks<Cell>, places: Places<Cell>, s: seq<Cell>, starts: seq<int>, insize: int,
                       total: int)
  {
    && starts != [] && starts[0] == 0 && starts[|starts| - 1] == |s|
    && (forall i :: 0 <= i < |starts| ==> 0 <= starts[i] <= |s|)
    && (forall i, j :: 0 <= i < j < |starts| && j == i + 1 ==>
          RunAt(marks, places, s, starts[i], starts[j], insize, total))
  }

  ghost predicate RunAt(marks: Marks<Cell>, places: Places<Cell>, s: seq<Cell>, lo: int, hi: int, insize: int,
                        total: int)
  {
    && 0 <= lo < hi <= |s| && hi <= lo + insize && (hi < total ==> hi == lo + insize)
    && RunOk(marks, places, s[lo..hi]) && InRange(places, s[lo..hi], lo, hi)
  }

  lemma RunAtGrows(before: Marks<Cell>, after: Marks<Cell>, places: Places<Cell>, s: seq<Cell>, t: seq<Cell>,
                   lo: int, hi: int, insize: int, total: int)
    requires RunAt(before, places, s, lo, hi, insize, total) && MarksGrow(before, after) && s <= t
    ensures RunAt(after, places, t, lo, hi, insize, total)
  {
    RunOkGrows(before, after, places, s[lo..hi]);
    assert t[lo..hi] == s[lo..hi];
  }

  lemma RunsGrow(before: Marks<Cell>, after: Marks<Cell>, places: Places<Cell>, s: seq<Cell>, starts: seq<int>,
                 insize: int, total: int)
    requires Runs(before, places, s, starts, insize, total) && MarksGrow(before, after)
    ensures Runs(after, places, s, starts, insize, total)
  {
    forall i, j | 0 <= i < j < |starts| && j == i + 1
      ensures RunAt(after, places, s, starts[i], starts[j], insize, total)
    {
      RunAtGrows(before, after, places, s, s, starts[i], starts[j], insize, total);
    }
  }

  /** Appending one merged run. */
  lemma RunsSnoc(before: Marks<Cell>, after: Marks<Cell>, places: Places<Cell>, s: seq<Cell>, t: seq<Cell>,
                 starts: seq<int>, insize: int, total: int)
    requires Runs(before, places, s, starts, insize, total) && MarksGrow(before, after) && s <= t
    requires RunAt(after, places, t, |s|, |t|, insize, total)
    ensures Runs(after, places, t, starts + [|t|], insize, total)
  {
    var starts' := starts + [|t|];
    forall i, j | 0 <= i < j < |starts'| && j == i + 1
      ensures RunAt(after, places, t, starts'[i], starts'[j], insize, total)
    {
      if j < |starts| {
        RunAtGrows(before, after, places, s, t, starts[i], starts[j], insize, total);
      }
    }
  }

  /** Steps `insize` places along from position `a`, or to the end of the list. */
  method StepAlong(p: Cell, insize: int, ghost cells: seq<Cell>, ghost a: int, order: Order,
                   ghost marks: Marks<Cell>, ghost records: Records) returns (psize: int, q: Cell?)
    requires insize > 0 && 0 <= a < |cells| && p == cells[a] && Untouched(cells, a, a, a)
    requires Agrees(order, cells, marks) && Holds(cells, records)
    ensures Agrees(order, cells, marks) && Holds(cells, records)
    ensures 0 < psize <= insize && a + psize <= |cells| && q == NodeAt(cells, a + psize)
    ensures a + psize < |cells| ==> psize == insize
  {
    hide Agrees, Holds, Untouched;
    q := p;
    psize := 0;
    var i := 0;
    while i < insize
      invariant 0 <= i <= insize && psize == i && a + i < |cells| && q == cells[a + i]
      invariant Untouched(cells, a, a, a) && Agrees(order, cells, marks) && Holds(cells, records)
      decreases insize - i
    {
      psize := psize + 1;
      NextIs(cells, a, a, a, a + i);
      q := q.next;
      if q == null {
        break;
      }
      i := i + 1;
    }
  }

  /** What the pass still has to merge: whole runs, of which the next two begin at position `a`. */
  lemma NextTwoRuns(marks: Marks<Cell>, places: Places<Cell>, cells: seq<Cell>, starts: seq<int>, insize: int, i: int,
                    a: int, psize: int) returns (c: int)
    requires Distinct(cells) && insize > 0
    requires Runs(marks, places, cells, starts, insize, |cells|)
    requires 0 <= i < |starts| && starts[i] == a < |cells|
    requires 0 < psize <= insize && a + psize <= |cells| && (a + psize < |cells| ==> psize == insize)
    ensures i + 1 < |starts| && starts[i + 1] == a + psize
    ensures a + psize <= c <= |cells| && c <= a + psize + insize && (c < |cells| ==> c == a + psize + insize)
    ensures if a + psize < |cells| then i + 2 < |starts| && starts[i + 2] == c else i + 2 == |starts| && c == a + psize
    ensures Neighbours(marks, places, cells[a..a + psize], cells[a + psize..c], a, a + psize, c)
  {
    assert i + 1 < |starts|;
    assert RunAt(marks, places, cells, starts[i], starts[i + 1], insize, |cells|);
    var b := a + psize;
    assert starts[i + 1] == b;
    if b < |cells| {
      assert i + 2 < |starts|;
      assert RunAt(marks, places, cells, starts[i + 1], starts[i + 2], insize, |cells|);
      c := starts[i + 2];
    } else {
      c := b;
      LastRun(marks, places, cells, starts, insize, i + 1);
    }
    SlicesApart(cells, a, b, c);
  }

  lemma SlicesApart(cells: seq<Cell>, a: int, b: int, c: int)
    requires Distinct(cells) && 0 <= a <= b <= c <= |cells|
    ensures Distinct(cells[a..b]) && Distinct(cells[b..c]) && Elems(cells[a..b]) !! Elems(cells[b..c])
  {
    forall x | x in Elems(cells[a..b])
      ensures x !in Elems(cells[b..c])
    {
      var k :| 0 <= k < b - a && cells[a..b][k] == x;
      assert cells[a + k] == x;
      forall l | 0 <= l < |cells[b..c]|
        ensures cells[b..c][l] != x
      {
        assert cells[b..c][l] == cells[b + l];
      }
    }
  }

  ghost predicate MergeCount(runs: int, done: int, merges: int) {
    && 0 <= done <= runs
    && (2 * merges == done || (done == runs && 2 * merges == done + 1))
  }

  /** How far a pass has come: `i` runs, reaching position `a`, have been merged into `out`. */
  ghost predicate Passing(cells: seq<Cell>, starts: seq<int>, insize: int, i: int, a: int, out: seq<Cell>,
                          starts': seq<int>, nmerges: int, marks0: Marks<Cell>, marks: Marks<Cell>,
                          places: Places<Cell>)
  {
    && insize > 0 && Distinct(cells)
    && 0 <= i < |starts| && starts[i] == a <= |cells|
    && MergeCount(|starts| - 1, i, nmerges) && |starts'| == nmerges + 1
    && Consumed(cells, a, a, a, out) && |out| == a
    && MarksGrow(marks0, marks)
    && Runs(marks, places, cells, starts, insize, |cells|)
    && Runs(marks, places, out, starts', 2 * insize, |cells|)
  }

  ghost predicate PassHeap(order: Order, cells: seq<Cell>, a: int, head: Cell?, tail: Cell?, out: seq<Cell>,
                           marks: Marks<Cell>, records: Records)
    reads cells, out`next, Infos(cells)
  {
    && InfosApart(cells) && Agrees(order, cells, marks) && Holds(cells, records)
    && Untouched(cells, a, a, a) && OutChain(head, tail, out) && (forall k :: 0 <= k < |out| ==> out[k] in cells)
  }

  lemma PassAdvances(cells: seq<Cell>, starts: seq<int>, insize: int, i: int, a: int, psize: int, c: int,
                     done: seq<Cell>, out: seq<Cell>, starts': seq<int>, nmerges: int, marks0: Marks<Cell>,
                     before: Marks<Cell>, marks: Marks<Cell>, places: Places<Cell>)
    requires Passing(cells, starts, insize, i, a, done, starts', nmerges, marks0, before, places)
    requires a < |cells| && 0 < psize <= insize && a + psize <= |cells| && (a + psize < |cells| ==> psize == insize)
    requires a + psize <= c <= |cells| && c <= a + psize + insize && (c < |cells| ==> c == a + psize + insize)
    requires if a + psize < |cells| then i + 2 < |starts| && starts[i + 2] == c else i + 2 == |starts| && c == a + psize
    requires i + 1 < |starts| && starts[i + 1] == a + psize
    requires Consumed(cells, c, c, c, out) && |out| == c && done <= out && MarksGrow(before, marks)
    requires RunOk(marks, places, out[a..]) && InRange(places, out[a..], a, c)
    ensures Passing(cells, starts, insize, if a + psize < |cells| then i + 2 else i + 1, c, out, starts' + [c],
                    nmerges + 1, marks0, marks, places)
  {
    hide Runs, RunAt, Consumed, MarksGrow, Distinct, RunOk, InRange;
    MarksGrowTrans(marks0, before, marks);
    RunsGrow(before, marks, places, cells, starts, insize, |cells|);
    MergedRunAt(marks, places, out, a, a + psize, c, insize, |cells|);
    RunsSnoc(before, marks, places, done, out, starts', 2 * insize, |cells|);
  }

  /** Merges the next two runs, or copies the last one. */
  method MergeNext(order: Order, p0: Cell, head0: Cell?, tail0: Cell?, insize: int, ghost cells: seq<Cell>,
                   ghost starts: seq<int>, ghost i: int, ghost a: int, ghost done: seq<Cell>, ghost starts0: seq<int>,
                   ghost nmerges: int, ghost marks0: Marks<Cell>, ghost before: Marks<Cell>,
                   ghost places: Places<Cell>, ghost records: Records)
    returns (head: Cell?, tail: Cell?, p: Cell?, ghost i': int, ghost a': int, ghost out: seq<Cell>,
             ghost starts': seq<int>, ghost marks: Marks<Cell>)
    requires Passing(cells, starts, insize, i, a, done, starts0, nmerges, marks0, before, places)
    requires PassHeap(order, cells, a, head0, tail0, done, before, records)
    requires 0 <= a < |cells| && p0 == cells[a] && insize > 0
    modifies cells`next, Infos(cells)`data16
    modifies Footprint(order)`crc, Footprint(order)`crcstate, Footprint(order)`crcmatrix
    ensures Infos(cells) == old(Infos(cells))
    ensures Passing(cells, starts, insize, i', a', out, starts', nmerges + 1, marks0, marks, places)
    ensures PassHeap(order, cells, a', head, tail, out, marks, records)
    ensures a < a' <= |cells| && p == NodeAt(cells, a')
  {
    hide Runs, RunAt, Agrees, Holds, Untouched, OutChain, Consumed, Neighbours, MarksGrow, InfosApart, Infos, RunOk,
         InRange, Distinct;
    var psize, q := StepAlong(p0, insize, cells, a, order, before, records);
    a' := NextTwoRuns(before, places, cells, starts, insize, i, a, psize);
    head, tail, p, out, marks := MergeRuns(order, head0, tail0, p0, psize, q, insize, cells, a, a + psize, a', done,
                                           before, places, records);
    PassAdvances(cells, starts, insize, i, a, psize, a', done, out, starts0, nmerges, marks0, before, marks, places);
    OutIsInCells(cells, a', out);
    starts' := starts0 + [a'];
    i' := if a + psize < |cells| then i + 2 else i + 1;
  }

  lemma OutIsInCells(cells: seq<Cell>, a: int, out: seq<Cell>)
    requires Consumed(cells, a, a, a, out)
    ensures forall k :: 0 <= k < |out| ==> out[k] in cells
  {
    forall k | 0 <= k < |out|
      ensures out[k] in cells
    {
      assert out[k] in Elems(out);
    }
  }

  /** One pass: neighbouring runs are merged pairwise. */
  method MergePass(order: Order, list0: Cell, insize: int, ghost cells: seq<Cell>, ghost starts: seq<int>,
                   ghost marks0: Marks<Cell>, ghost places: Places<Cell>, ghost records: Records)
    returns (list: Cell, nmerges: int, ghost out: seq<Cell>, ghost starts': seq<int>, ghost marks: Marks<Cell>)
    requires insize > 0 && cells != [] && IsList(list0, cells) && InfosApart(cells)
    requires Runs(marks0, places, cells, starts, insize, |cells|)
    requires Agrees(order, cells, marks0) && Holds(cells, records)
    modifies cells`next, Infos(cells)`data16
    modifies Footprint(order)`crc, Footprint(order)`crcstate, Footprint(order)`crcmatrix
    ensures IsList(list, out) && InfosApart(out) && Infos(out) == old(Infos(cells))
    ensures Elems(out) == Elems(cells) && |out| == |cells|
    ensures Runs(marks, places, out, starts', 2 * insize, |out|)
    ensures MergeCount(|starts| - 1, |starts| - 1, nmerges) && |starts'| == nmerges + 1
    ensures Agrees(order, out, marks) && Holds(out, records) && MarksGrow(marks0, marks)
  {
    hide Passing, PassHeap, Infos;
    var p: Cell? := list0;
    var head: Cell?, tail: Cell? := null, null;
    nmerges := 0;
    out, starts', marks := [], [0], marks0;
    ghost var i, a, infos := 0, 0, Infos(cells);
    PassStarts(order, list0, cells, starts, marks0, places, insize, records);
    while p != null
      invariant 0 <= a <= |cells| && p == NodeAt(cells, a)
      invariant Infos(cells) == infos
      invariant Passing(cells, starts, insize, i, a, out, starts', nmerges, marks0, marks, places)
      invariant PassHeap(order, cells, a, head, tail, out, marks, records)
      decreases |cells| - a
    {
      head, tail, p, i, a, out, starts', marks :=
        MergeNext(order, p, head, tail, insize, cells, starts, i, a, out, starts', nmerges, marks0, marks, places,
                  records);
      nmerges := nmerges + 1;
    }
    PassEnds(order, cells, starts, insize, i, a, head, tail, out, starts', nmerges, marks0, marks, places, records);
    list := CloseList(order, head, tail, out, cells, marks, records);
    Permuted(order, cells, out, marks, records);
  }

  lemma PassEnds(order: Order, cells: seq<Cell>, starts: seq<int>, insize: int, i: int, a: int, head: Cell?,
                 tail: Cell?, out: seq<Cell>, starts': seq<int>, nmerges: int, marks0: Marks<Cell>,
                 marks: Marks<Cell>, places: Places<Cell>, records: Records)
    requires Passing(cells, starts, insize, i, a, out, starts', nmerges, marks0, marks, places)
    requires PassHeap(order, cells, a, head, tail, out, marks, records)
    requires a == |cells|
    ensures i == |starts| - 1 && MergeCount(|starts| - 1, |starts| - 1, nmerges) && |starts'| == nmerges + 1
    ensures OutChain(head, tail, out) && Consumed(cells, |cells|, |cells|, |cells|, out)
    ensures Agrees(order, cells, marks) && Holds(cells, records) && InfosApart(cells)
    ensures Runs(marks, places, out, starts', 2 * insize, |cells|) && MarksGrow(marks0, marks)
  {
    hide Runs, Agrees, Holds, Untouched, OutChain, Consumed, MarksGrow, InfosApart, Infos;
    LastRun(marks, places, cells, starts, insize, i);
  }

  /** Ends the merged list. */
  method CloseList(order: Order, head: Cell?, tail: Cell?, ghost out: seq<Cell>, ghost cells: seq<Cell>,
                   ghost marks: Marks<Cell>, ghost records: Records) returns (list: Cell)
    requires cells != [] && OutChain(head, tail, out) && Consumed(cells, |cells|, |cells|, |cells|, out)
    requires Agrees(order, cells, marks) && Holds(cells, records) && InfosApart(cells)
    modifies cells`next
    ensures SameInfos(cells) && Agrees(order, cells, marks) && Holds(cells, records)
    ensures IsList(list, out) && Elems(out) == Elems(cells) && |out| == |cells|
  {
    var n := |cells|;
    assert cells[..n] == cells && cells[n..n] == [];
    assert Elems(cells[n..n]) == {};
    assert tail in Elems(out);
    tail.next := null;
    list := head;
  }

  /** Facts about the cells do not depend on their order. */
  lemma Permuted(order: Order, cells: seq<Cell>, out: seq<Cell>, marks: Marks<Cell>, records: Records)
    requires Elems(out) == Elems(cells) && Distinct(out) && InfosApart(cells)
    requires Agrees(order, cells, marks) && Holds(cells, records)
    ensures InfosApart(out) && Infos(out) == Infos(cells)
    ensures Agrees(order, out, marks) && Holds(out, records)
  {
    forall i | 0 <= i < |out|
      ensures out[i] in cells
    {
      assert out[i] in Elems(out);
    }
    forall i | 0 <= i < |cells|
      ensures cells[i] in out
    {
      assert cells[i] in Elems(cells);
    }
    forall i, j | 0 <= i < j < |out|
      ensures out[i].info != out[j].info
    {
      assert out[i] in cells && out[j] in cells;
      var k :| 0 <= k < |cells| && cells[k] == out[i];
      var l :| 0 <= l < |cells| && cells[l] == out[j];
    }
    forall d | d in Infos(cells)
      ensures d in Infos(out)
    {
      var k :| 0 <= k < |cells| && cells[k].info == d;
      assert cells[k] in out;
      var l :| 0 <= l < |out| && out[l] == cells[k];
    }
    forall d | d in Infos(out)
      ensures d in Infos(cells)
    {
      var k :| 0 <= k < |out| && out[k].info == d;
      assert out[k] in cells;
      var l :| 0 <= l < |cells| && cells[l] == out[k];
    }
    forall i | 0 <= i < |out|
      ensures out[i] in marks && marks[out[i]] == MarkOf(order, out[i].info)
      ensures out[i] in records && records[out[i]] == RecordOf(out[i])
    {
      assert out[i] in cells;
      var k :| 0 <= k < |cells| && cells[k] == out[i];
    }
  }

  lemma StartsIncrease(marks: Marks<Cell>, places: Places<Cell>, s: seq<Cell>, starts: seq<int>, insize: int, i: int)
    requires Runs(marks, places, s, starts, insize, |s|) && 0 <= i < |starts| - 1
    ensures starts[i] < starts[i + 1] <= |s|
  {
    assert RunAt(marks, places, s, starts[i], starts[i + 1], insize, |s|);
  }

  lemma LastRun(marks: Marks<Cell>, places: Places<Cell>, s: seq<Cell>, starts: seq<int>, insize: int, i: int)
    requires Runs(marks, places, s, starts, insize, |s|) && 0 <= i < |starts| && starts[i] == |s|
    ensures i == |starts| - 1
  {
    if i < |starts| - 1 {
      StartsIncrease(marks, places, s, starts, insize, i);
    }
  }

  lemma MergedRunAt(marks: Marks<Cell>, places: Places<Cell>, out: seq<Cell>, a: int, b: int, c: int, insize: int,
                    total: int)
    requires 0 <= a < b <= c == |out| && b <= a + insize && c <= b + insize && (b < total ==> b == a + insize)
    requires (c < total ==> c == b + insize) && c <= total
    requires RunOk(marks, places, out[a..]) && InRange(places, out[a..], a, c)
    ensures RunAt(marks, places, out, a, c, 2 * insize, total)
  {
    assert out[a..c] == out[a..];
  }

  lemma PassStarts(order: Order, list0: Cell, cells: seq<Cell>, starts: seq<int>, marks0: Marks<Cell>,
                   places: Places<Cell>, insize: int, records: Records)
    requires insize > 0 && cells != [] && IsList(list0, cells) && InfosApart(cells)
    requires Agrees(order, cells, marks0) && Holds(cells, records)
    requires Runs(marks0, places, cells, starts, insize, |cells|)
    ensures Passing(cells, starts, insize, 0, 0, [], [0], 0, marks0, marks0, places)
    ensures PassHeap(order, cells, 0, null, null, [], marks0, records)
  {
    hide Agrees, Holds, InfosApart;
    assert Elems(cells[..0]) == {} && Elems(cells[0..0]) == {} && Elems<Cell>([]) == {};
  }

  // ----- the whole sort

  /** Passes needed for a list of `runs` single cells: halve, rounding up, until at most two remain. */
  function Passes(runs: int): int {
    if runs <= 2 then 1 else 1 + Passes((runs + 1) / 2)
  }

  /** The number of passes is the least k >= 1 with n <= 2^k: ceil(log2 n), but at least one. */
  lemma {:induction false} PassesIsCeilLog2(n: int)
    requires n >= 1
    ensures Passes(n) >= 1 && n <= Pow2(Passes(n))
    ensures Passes(n) > 1 ==> n > Pow2(Passes(n) - 1)
    decreases n
  {
    if n > 2 {
      PassesIsCeilLog2((n + 1) / 2);
    }
  }

  /** `out[i]` stood at position `from[i]` of `cells`; `from` is injective, so `out` rearranges `cells`. */
  ghost predicate Rearranges(cells: seq<Cell>, out: seq<Cell>, from: seq<int>) {
    && |out| == |cells| == |from|
    && (forall i :: 0 <= i < |out| ==> 0 <= from[i] < |cells| && out[i] == cells[from[i]])
    && (forall i, j :: 0 <= i < j < |from| ==> from[i] != from[j])
  }

  /** Ordered by final key, ties in their original order, and every key final. */
  ghost predicate SortedStably(order: Order, out: seq<Cell>, from: seq<int>)
    requires |from| == |out|
    reads out`info, Infos(out)
  {
    && (forall i :: 0 <= i < |out| ==> Settled(order, out[i].info))
    && (forall i, j :: 0 <= i < j < |out| ==>
          || KeyOf(order, out[i].info) < KeyOf(order, out[j].info)
          || (KeyOf(order, out[i].info) == KeyOf(order, out[j].info) && from[i] < from[j]))
  }

  ghost function PlacesOf(cells: seq<Cell>): Places<Cell> {
    map x | x in cells :: Index(cells, x)
  }

  ghost function MarksOf(order: Order, cells: seq<Cell>): Marks<Cell>
    reads cells`info, Infos(cells)
  {
    map x | x in cells :: InfoIsRead(cells, x); MarkOf(order, x.info)
  }

  ghost function RecordsOf(cells: seq<Cell>): Records
    reads cells`info, Infos(cells)
  {
    map x | x in cells :: InfoIsRead(cells, x); RecordOf(x)
  }

  /** Every key is the one on record. */
  ghost predicate KeysKept(order: Order, cells: seq<Cell>, marks: Marks<Cell>)
    reads cells`info, Infos(cells)
  {
    forall i :: 0 <= i < |cells| ==> cells[i] in marks && KeyOf(order, cells[i].info) == marks[cells[i]].key
  }

  lemma KeysAreKept(order: Order, cells: seq<Cell>, out: seq<Cell>, before: Marks<Cell>, marks: Marks<Cell>)
    requires MarksGrow(before, marks) && Agrees(order, out, marks) && before.Keys == Elems(cells) == Elems(out)
    ensures KeysKept(order, out, before)
  {
    forall i | 0 <= i < |out|
      ensures out[i] in before && KeyOf(order, out[i].info) == before[out[i]].key
    {
      assert out[i] in Elems(out);
    }
  }

  lemma InfoIsRead(cells: seq<Cell>, x: Cell)
    requires x in cells
    ensures x.info in Infos(cells)
  {
    var i :| 0 <= i < |cells| && cells[i] == x;
  }

  ghost function Singles(n: nat): (starts: seq<int>)
    ensures |starts| == n + 1 && forall i :: 0 <= i <= n ==> starts[i] == i
  {
    seq(n + 1, i => i)
  }

  lemma SinglesAreRuns(marks: Marks<Cell>, cells: seq<Cell>)
    requires Distinct(cells)
    ensures Runs(marks, PlacesOf(cells), cells, Singles(|cells|), 1, |cells|)
  {
    var places := PlacesOf(cells);
    forall i, j | 0 <= i < j <= |cells| && j == i + 1
      ensures RunAt(marks, places, cells, i, j, 1, |cells|)
    {
      assert cells[i] in cells;
      assert PlaceIn(places, cells[i]) == i;
      assert cells[i..j] == [cells[i]];
    }
  }

  ghost function FromPlaces(places: Places<Cell>, out: seq<Cell>): (from: seq<int>)
    ensures |from| == |out| && forall i :: 0 <= i < |out| ==> from[i] == PlaceIn(places, out[i])
  {
    seq(|out|, i requires 0 <= i < |out| => PlaceIn(places, out[i]))
  }

  lemma OutRearranges(cells: seq<Cell>, out: seq<Cell>)
    requires Distinct(cells) && Distinct(out) && Elems(out) == Elems(cells) && |out| == |cells|
    ensures Rearranges(cells, out, FromPlaces(PlacesOf(cells), out))
  {
    var places, from := PlacesOf(cells), FromPlaces(PlacesOf(cells), out);
    forall i | 0 <= i < |out|
      ensures 0 <= from[i] < |cells| && cells[from[i]] == out[i]
    {
      assert out[i] in Elems(out);
    }
    forall i, j | 0 <= i < j < |from|
      ensures from[i] != from[j]
    {
      assert cells[from[i]] == out[i] && cells[from[j]] == out[j];
    }
  }

  /** A list that is one run of two or more cells is sorted. */
  lemma OneRunIsSorted(order: Order, marks: Marks<Cell>, places: Places<Cell>, out: seq<Cell>, starts: seq<int>,
                       insize: int)
    requires |out| >= 2 && |starts| == 2 && Runs(marks, places, out, starts, insize, |out|)
    requires Agrees(order, out, marks)
    ensures SortedStably(order, out, FromPlaces(places, out))
  {
    assert RunAt(marks, places, out, starts[0], starts[1], insize, |out|);
    assert out[0..|out|] == out;
    forall i | 0 <= i < |out|
      ensures Settled(order, out[i].info)
    {
      assert SettledIn(marks, out[i]);
    }
    forall i, j | 0 <= i < j < |out|
      ensures || KeyOf(order, out[i].info) < KeyOf(order, out[j].info)
              || (KeyOf(order, out[i].info) == KeyOf(order, out[j].info) &&
                  FromPlaces(places, out)[i] < FromPlaces(places, out)[j])
    {
      assert Lt(marks, places, out[i], out[j]);
    }
  }

  /** When a second run exists the first one is full, so doubling `insize` stays below the list's length. */
  lemma InsizeStaysSmall(marks: Marks<Cell>, places: Places<Cell>, out: seq<Cell>, starts: seq<int>, insize: int)
    requires |starts| > 2 && Runs(marks, places, out, starts, insize, |out|)
    ensures insize < |out|
  {
    assert RunAt(marks, places, out, starts[0], starts[1], insize, |out|);
    assert RunAt(marks, places, out, starts[1], starts[2], insize, |out|);
  }

  lemma StartSort(order: Order, cells: seq<Cell>)
    requires Distinct(cells) && InfosApart(cells)
    ensures Agrees(order, cells, MarksOf(order, cells)) && Holds(cells, RecordsOf(cells))
  {
    forall i | 0 <= i < |cells|
      ensures cells[i] in MarksOf(order, cells) && MarksOf(order, cells)[cells[i]] == MarkOf(order, cells[i].info)
      ensures cells[i] in RecordsOf(cells) && RecordsOf(cells)[cells[i]] == RecordOf(cells[i])
    {
      InfoIsRead(cells, cells[i]);
    }
  }

  method Mergesort(order: Order, list0: Cell, ghost cells: seq<Cell>)
    returns (list: Cell, ghost out: seq<Cell>, ghost from: seq<int>, ghost passes: int)
    requires cells != [] && IsList(list0, cells) && InfosApart(cells)
    modifies cells`next, Infos(cells)`data16
    modifies Footprint(order)`crc, Footprint(order)`crcstate, Footprint(order)`crcmatrix
    ensures IsList(list, out) && InfosApart(out) && Infos(out) == old(Infos(cells))
    ensures Rearranges(cells, out, from)
    ensures |cells| >= 2 ==> SortedStably(order, out, from)
    ensures Holds(cells, old(RecordsOf(cells)))
    ensures KeysKept(order, out, old(MarksOf(order, cells)))
    ensures passes == Passes(|cells|)
  {
    hide Runs, Agrees, Holds, MarksGrow, Infos, InfosApart, MarksOf, RecordsOf, PlacesOf, IsList, SortedStably,
         Rearranges, Distinct, KeysKept;
    ghost var places, records, marks := PlacesOf(cells), RecordsOf(cells), MarksOf(order, cells);
    ghost var starts, infos, marks0 := Singles(|cells|), Infos(cells), marks;
    ListFacts(list0, cells);
    StartSort(order, cells);
    MarksGrowRefl(marks);
    MarkKeys(order, cells);
    SinglesAreRuns(marks, cells);
    list, out, passes := list0, cells, 0;
    var insize := 1;
    while true
      invariant out != [] && |out| == |cells| && Elems(out) == Elems(cells)
      invariant IsList(list, out) && InfosApart(out) && Infos(out) == infos
      invariant Agrees(order, out, marks) && Holds(out, records) && MarksGrow(marks0, marks)
      invariant Runs(marks, places, out, starts, insize, |out|)
      invariant |starts| > 1 && (insize == 1 || insize < |cells|) && insize > 0
      invariant passes + Passes(|starts| - 1) == Passes(|cells|)
      invariant passes > 0 ==> |starts| > 2
      decreases |starts|
    {
      ghost var input := out;
      SameElems(cells, input);
      ghost var before := marks;
      var nmerges;
      list, nmerges, out, starts, marks := MergePass(order, list, insize, input, starts, marks, places, records);
      MarksGrowTrans(marks0, before, marks);
      passes := passes + 1;
      if nmerges <= 1 {
        break;
      }
      InsizeStaysSmall(marks, places, out, starts, 2 * insize);
      insize := insize * 2;
    }
    from := FromPlaces(places, out);
    ListFacts(list, out);
    OutRearranges(cells, out);
    Permuted(order, out, cells, marks, records);
    KeysAreKept(order, cells, out, marks0, marks);
    if |cells| >= 2 {
      OneRunIsSorted(order, marks, places, out, starts, 2 * insize);
    }
  }

  lemma MarkKeys(order: Order, cells: seq<Cell>)
    ensures MarksOf(order, cells).Keys == Elems(cells)
  {
  }

  lemma SameElems(cells: seq<Cell>, out: seq<Cell>)
    requires Elems(out) == Elems(cells)
    ensures forall k :: 0 <= k < |out| ==> out[k] in cells
  {
    forall k | 0 <= k < |out|
      ensures out[k] in cells
    {
      assert out[k] in Elems(out);
    }
  }

  lemma ListFacts(head: Cell?, cells: seq<Cell>)
    requires IsList(head, cells)
    ensures Distinct(cells)
  {
  }
}
