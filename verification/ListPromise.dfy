/** When the list benchmark keeps its promise whatever it is called with: for every kernel, and for every call. */
module ListPromise {
  import opened Collections
  import opened ListBench
  import opened ListCells
  import opened ListOrders

  ghost predicate ItemsApart(cells: seq<Cell>, records: Records) {
    && (forall i :: 0 <= i < |cells| ==> cells[i] in records)
    && (forall i, j :: 0 <= i < j < |cells| ==> records[cells[i]].info != records[cells[j]].info)
  }

  lemma EveryKernel(cells: seq<Cell>, records: Records, data: map<Cell, U16>, call: Call)
    requires AlwaysComesBack(cells, IndicesOf(records), data, call.finderIdx, call.findNum)
    ensures ComesBack(cells, records, data, call)
  {
    hide Searched;
    forall i, j | 0 <= i < j < |cells|
      ensures GoesBefore(cells, records, data, call, cells[i], cells[j])
    {
      var d, e := data[cells[i]], data[cells[j]];
      assert BytesAlike(data, cells[i]) && BytesAlike(data, cells[j]);
      assert ValueOf(records, data, call.kernel, cells[i]) <= Highest(d);
      assert Lowest(e) <= ValueOf(records, data, call.kernel, cells[j]);
    }
  }

  /** Gives one item the largest value and all others the smallest. */
  function Favour(info: ListData): Kernel {
    (d, operation) => if d == info then 127 else 0
  }

  lemma SomeKernel(cells: seq<Cell>, records: Records, data: map<Cell, U16>, finderIdx: S16, findNum: S16)
    returns (kernel: Kernel)
    requires ItemsApart(cells, records) && !AlwaysComesBack(cells, IndicesOf(records), data, finderIdx, findNum)
    ensures !ComesBack(cells, records, data, Call(finderIdx, findNum, kernel))
  {
    hide Searched;
    kernel := (d, operation) => 0;
    if forall i :: 0 <= i < |cells| ==> BytesAlike(data, cells[i]) {
      var i, j :| 0 <= i < j < |cells| && records[cells[i]].idx >= records[cells[j]].idx &&
        (records[cells[i]].idx == records[cells[j]].idx ==>
           !AlwaysStandsBefore(cells, IndicesOf(records), data, finderIdx, findNum, cells[i], cells[j]));
      kernel := Favour(records[cells[i]].info);
      var call := Call(finderIdx, findNum, kernel);
      assert BytesAlike(data, cells[i]) && BytesAlike(data, cells[j]);
      assert ValueOf(records, data, kernel, cells[i]) == Highest(data[cells[i]]);
      assert ValueOf(records, data, kernel, cells[j]) == Lowest(data[cells[j]]);
      assert !GoesBefore(cells, records, data, call, cells[i], cells[j]);
    }
  }

  /** A call gives the list back whatever the kernels return exactly when `AlwaysComesBack` holds. */
  lemma EveryKernelIff(cells: seq<Cell>, records: Records, data: map<Cell, U16>, finderIdx: S16, findNum: S16)
    requires ItemsApart(cells, records)
    ensures AlwaysComesBack(cells, IndicesOf(records), data, finderIdx, findNum) <==>
            forall kernel: Kernel :: ComesBack(cells, records, data, Call(finderIdx, findNum, kernel))
  {
    hide ComesBack, AlwaysComesBack, ItemsApart;
    if AlwaysComesBack(cells, IndicesOf(records), data, finderIdx, findNum) {
      forall kernel: Kernel
        ensures ComesBack(cells, records, data, Call(finderIdx, findNum, kernel))
      {
        EveryKernel(cells, records, data, Call(finderIdx, findNum, kernel));
      }
    } else {
      var kernel := SomeKernel(cells, records, data, finderIdx, findNum);
    }
  }

  /** Every run of the benchmark gives the list back after each call, whatever the kernels return, exactly when the
      condition holds for both calls of an iteration. */
  lemma RunComesBackIff(cells: seq<Cell>, records: Records, data: map<Cell, U16>, findNum: S16)
    requires ItemsApart(cells, records)
    ensures RunComesBack(cells, IndicesOf(records), data, findNum) <==>
            forall kernel: Kernel ::
              && ComesBack(cells, records, data, Call(1, findNum, kernel))
              && ComesBack(cells, records, data, Call(-1, findNum, kernel))
  {
    hide ComesBack, AlwaysComesBack, ItemsApart;
    EveryKernelIff(cells, records, data, 1, findNum);
    EveryKernelIff(cells, records, data, -1, findNum);
  }

  // ----- ties

  ghost predicate IsAscending<T>(s: seq<T>, indices: Indices<T>) {
    && (forall i :: 0 <= i < |s| ==> s[i] in indices)
    && (forall i, j :: 0 <= i < j < |s| ==> indices[s[i]] <= indices[s[j]])
  }

  /** Searching once for index 0 turns elements of the same index round, wherever it finds that index or does not. */
  lemma OneSearchTurnsTies<T>(s: seq<T>, indices: Indices<T>, data: Words<T>, i: nat, j: nat)
    requires Distinct(s) && IsAscending(s, indices) && i < j < |s|
    requires indices[s[i]] == indices[s[j]] && forall x <- s :: x in data
    ensures !ComesFirst(Searched(s, indices, data, 0, 0, 1), s[i], s[j])
  {
    hide Turned, FirstWanted;
    var k := FirstWanted(s, indices, data, 0, 0);
    FirstIsWanted(s, indices, data, 0, 0);
    var r := Turned(s, k);
    assert Searched(r, indices, data, 1, 1, 1) == r;
    TurnedRearranges(s, k);
    TurnedAt(s, k, i);
    TurnedAt(s, k, j);
    IndexIs(r, TurnedTo(|s|, k, i));
    IndexIs(r, TurnedTo(|s|, k, j));
    if 0 < k < |s| {
      assert indices[s[k]] == 0;
      assert indices[s[k - 1]] < 0 && (k <= j ==> indices[s[j]] >= 0);
      assert i != k - 1;
    }
  }

  /** So such a call does not give back a list with two cells of the same index. */
  lemma TiesDoNotComeBack(cells: seq<Cell>, records: Records, data: map<Cell, U16>, kernel: Kernel, i: nat, j: nat)
    requires Distinct(cells) && IsAscending(cells, IndicesOf(records)) && i < j < |cells|
    requires IndicesOf(records)[cells[i]] == IndicesOf(records)[cells[j]] && forall x <- cells :: x in data
    ensures !ComesBack(cells, records, data, Call(0, 1, kernel))
  {
    hide Searched, ComesFirst;
    OneSearchTurnsTies(cells, IndicesOf(records), data, i, j);
    assert !GoesBefore(cells, records, data, Call(0, 1, kernel), cells[i], cells[j]);
  }

  /** The list comes back from every call exactly when its indices ascend strictly and the bytes are alike. */
  lemma EveryCallIff(cells: seq<Cell>, records: Records, data: map<Cell, U16>)
    requires Distinct(cells) && forall x <- cells :: x in records && x in data
    ensures IsStrict(cells, records, data) <==> forall call: Call :: ComesBack(cells, records, data, call)
  {
    hide ComesBack, IsStrict;
    if IsStrict(cells, records, data) {
      forall call: Call
        ensures ComesBack(cells, records, data, call)
      {
        StrictListsComeBack(cells, records, data, call);
      }
    } else {
      NotStrictFails(cells, records, data, (d, operation) => 0);
    }
  }

  /** Otherwise one of two calls does not give it back, whatever the kernels return: no search, or one. */
  lemma NotStrictFails(cells: seq<Cell>, records: Records, data: map<Cell, U16>, kernel: Kernel)
    requires Distinct(cells) && !IsStrict(cells, records, data) && forall x <- cells :: x in records && x in data
    ensures !ComesBack(cells, records, data, Call(0, 0, kernel)) || !ComesBack(cells, records, data, Call(0, 1, kernel))
  {
    hide StandsBefore;
    if ComesBack(cells, records, data, Call(0, 0, kernel)) {
      var i, j :| 0 <= i < j < |cells| && records[cells[i]].idx >= records[cells[j]].idx;
      forall a, b | 0 <= a < b < |cells|
        ensures records[cells[a]].idx <= records[cells[b]].idx
      {
        assert GoesBefore(cells, records, data, Call(0, 0, kernel), cells[a], cells[b]);
      }
      TiesDoNotComeBack(cells, records, data, kernel, i, j);
    }
  }
}
