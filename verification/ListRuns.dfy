/** Runs of the benchmark: repeated calls over one list. */
module ListRuns {
  import opened Arithmetic
  import opened Collections
  import opened Crc
  import opened ListBench
  import opened ListCells
  import opened ListInit
  import opened ListOrders
  import opened ListPositions
  import opened ListPromise
  import opened MergeSort

  /** Records and data that still hold are the records and data now. */
  lemma StillOnRecord(cells: seq<Cell>, records: Records, data: map<Cell, U16>)
    requires Holds(cells, records) && IsRestored(cells, cells, data)
    requires records.Keys == data.Keys == (set x | x in cells)
    ensures RecordsOf(cells) == records && DataOf(cells) == data
  {
    forall x | x in cells
      ensures RecordsOf(cells)[x] == records[x] && DataOf(cells)[x] == data[x]
    {
      InfoIsRead(cells, x);
      var i :| 0 <= i < |cells| && cells[i] == x;
      assert records[cells[i]] == RecordOf(cells[i]);
    }
  }

  lemma RecordKeys(cells: seq<Cell>)
    ensures RecordsOf(cells).Keys == DataOf(cells).Keys == (set x | x in cells)
  {
  }

  /** One call after which the caller's pointer heads the whole list again. */
  method BenchOnce(res: Results, list0: Cell, finderIdx: S16, findNum: S16, kernel: Kernel, ghost cells: seq<Cell>,
                   ghost records: Records, ghost data: map<Cell, U16>)
    returns (retval: Word)
    requires IsList(list0, cells) && InfosApart(cells) && |cells| >= 3
    requires ComesBack(cells, records, data, Call(finderIdx, findNum, kernel))
    requires RecordsOf(cells) == records && DataOf(cells) == data
    modifies cells, Infos(cells)`data16, res`crc, res`crcstate, res`crcmatrix
    ensures IsList(list0, cells) && SameInfos(cells)
    ensures RecordsOf(cells) == records && DataOf(cells) == data
    ensures finderIdx <= 0 ==> res.crc == old(res.crc)
    ensures IsChecksum(cells, records, data, Call(finderIdx, findNum, kernel), cells, retval)
  {
    hide IsStrict, Holds, InfosApart, Infos, SortedStably, Rearranges, RecordsOf, DataOf, ComesBack, GoesBefore,
         IsRestored, IsList, IsChecksum;
    RecordKeys(cells);
    ListHead(list0, cells);
    var list;
    ghost var out;
    list, retval, out := BenchList(res, list0, finderIdx, findNum, kernel, cells);
    RestoredIsSame(cells, out, data);
    ListHead(list, cells);
    StillOnRecord(cells, records, data);
  }

  /** Folds the checksum of a call into the running one. */
  method FoldChecksum(res: Results, crc: Word, ghost cells: seq<Cell>)
    modifies res`crc
    ensures res.crc == Run(old(res.crc), crc)
    ensures SameInfos(cells) <==> InfosApart(cells)
    ensures RecordsOf(cells) == old(RecordsOf(cells)) && DataOf(cells) == old(DataOf(cells))
  {
    res.crc := CrcU16(crc, res.crc);
  }

  /** A run starts from cleared results. */
  method ClearResults(res: Results, ghost cells: seq<Cell>)
    modifies res
    ensures res.crc == res.crclist == Zeros(16) && res.crcmatrix == res.crcstate == 0
    ensures SameInfos(cells) <==> InfosApart(cells)
    ensures RecordsOf(cells) == old(RecordsOf(cells)) && DataOf(cells) == old(DataOf(cells))
  {
    res.crc, res.crclist, res.crcmatrix, res.crcstate := Zeros(16), Zeros(16), 0, 0;
  }

  /** The running checksum after the first iteration is kept. */
  method KeepChecksum(res: Results, ghost cells: seq<Cell>)
    modifies res`crclist
    ensures res.crclist == res.crc
    ensures SameInfos(cells) <==> InfosApart(cells)
    ensures RecordsOf(cells) == old(RecordsOf(cells)) && DataOf(cells) == old(DataOf(cells))
  {
    res.crclist := res.crc;
  }

  /** The calls of a run: index 1 and index -1 in turn. In different calls the kernels may return different results. */
  function NthCall(n: nat, findNum: S16, kernels: nat -> Kernel): Call {
    Call(if n % 2 == 0 then 1 else -1, findNum, kernels(n))
  }

  /** The checksums of a run's calls. */
  ghost predicate AreChecksums(cells: seq<Cell>, records: Records, data: map<Cell, U16>, findNum: S16,
                               kernels: nat -> Kernel, sums: seq<Word>)
    requires |cells| >= 3
  {
    forall n :: 0 <= n < |sums| ==> IsChecksum(cells, records, data, NthCall(n, findNum, kernels), cells, sums[n])
  }

  /** Every iteration is the same: calls for the same index in which the kernels return the same have the same
      checksum. */
  lemma IterationsAreAlike(cells: seq<Cell>, records: Records, data: map<Cell, U16>, findNum: S16,
                           kernels: nat -> Kernel, sums: seq<Word>, m: nat, n: nat)
    requires |cells| >= 3 && AreChecksums(cells, records, data, findNum, kernels, sums) && m < |sums| && n < |sums|
    requires m % 2 == n % 2 && kernels(m) == kernels(n)
    ensures sums[m] == sums[n]
  {
    hide IsChecksum;
    ChecksumIsDetermined(cells, records, data, NthCall(n, findNum, kernels), cells, sums[m], sums[n]);
  }

  lemma OneMoreChecksum(cells: seq<Cell>, records: Records, data: map<Cell, U16>, findNum: S16, kernels: nat -> Kernel,
                        sums: seq<Word>, sum: Word)
    requires |cells| >= 3 && AreChecksums(cells, records, data, findNum, kernels, sums)
    requires IsChecksum(cells, records, data, NthCall(|sums|, findNum, kernels), cells, sum)
    ensures AreChecksums(cells, records, data, findNum, kernels, sums + [sum])
  {
    hide IsChecksum;
  }

  /** The running checksum: `crcs[n]` is what the kernels of the n-th call leave of it, and the call's own checksum is
      folded in after that. The call for index -1 runs no kernel. */
  ghost predicate AreFolded(crcs: seq<Word>, sums: seq<Word>) {
    |crcs| == |sums| && forall n, m :: 0 <= n < |sums| && n % 2 == 1 && m == n - 1 ==> crcs[n] == Run(crcs[m], sums[m])
  }

  /** The running checksum after `n` calls. */
  ghost function CrcAfter(crcs: seq<Word>, sums: seq<Word>, n: nat): Word
    requires |crcs| == |sums| && n <= |sums|
  {
    if n == 0 then Zeros(16) else Run(crcs[n - 1], sums[n - 1])
  }

  lemma OneMoreFolded(crcs: seq<Word>, sums: seq<Word>, crc: Word, sum: Word)
    requires AreFolded(crcs, sums) && (|sums| % 2 == 1 ==> crc == CrcAfter(crcs, sums, |sums|))
    ensures AreFolded(crcs + [crc], sums + [sum])
    ensures CrcAfter(crcs + [crc], sums + [sum], |sums| + 1) == Run(crc, sum)
    ensures forall n: nat :: n <= |sums| ==> CrcAfter(crcs + [crc], sums + [sum], n) == CrcAfter(crcs, sums, n)
  {
    hide Run;
  }

  /** The benchmark's iterations: two calls each. */
  method Iterate(res: Results, list0: Cell, findNum: S16, iterations: nat, kernels: nat -> Kernel,
                 ghost cells: seq<Cell>)
    returns (ghost sums: seq<Word>, ghost crcs: seq<Word>)
    requires IsList(list0, cells) && InfosApart(cells) && |cells| >= 3
    requires forall n :: 0 <= n < 2 * iterations ==>
      ComesBack(cells, RecordsOf(cells), DataOf(cells), NthCall(n, findNum, kernels))
    modifies cells, Infos(cells)`data16, res
    ensures IsList(list0, cells) && SameInfos(cells)
    ensures RecordsOf(cells) == old(RecordsOf(cells)) && DataOf(cells) == old(DataOf(cells))
    ensures |sums| == 2 * iterations
    ensures AreChecksums(cells, old(RecordsOf(cells)), old(DataOf(cells)), findNum, kernels, sums)
    ensures AreFolded(crcs, sums) && res.crc == CrcAfter(crcs, sums, 2 * iterations)
    ensures res.crclist == CrcAfter(crcs, sums, Min(2, 2 * iterations))
  {
    hide ComesBack, InfosApart, Infos, RecordsOf, DataOf, IsList, IsChecksum, AreChecksums, AreFolded, CrcAfter, Run;
    ghost var records, data, infos := RecordsOf(cells), DataOf(cells), Infos(cells);
    ClearResults(res, cells);
    sums, crcs := [], [];
    NoChecksums(cells, records, data, findNum, kernels);
    for i := 0 to iterations
      invariant IsList(list0, cells) && InfosApart(cells) && Infos(cells) == infos
      invariant RecordsOf(cells) == records && DataOf(cells) == data
      invariant |sums| == 2 * i && AreChecksums(cells, records, data, findNum, kernels, sums)
      invariant |crcs| == |sums| && AreFolded(crcs, sums) && res.crc == CrcAfter(crcs, sums, 2 * i)
      invariant res.crclist == CrcAfter(crcs, sums, Min(2, 2 * i))
    {
      assert NthCall(2 * i, findNum, kernels) == Call(1, findNum, kernels(2 * i));
      assert NthCall(2 * i + 1, findNum, kernels) == Call(-1, findNum, kernels(2 * i + 1));
      var crc := BenchOnce(res, list0, 1, findNum, kernels(2 * i), cells, records, data);
      OneMoreChecksum(cells, records, data, findNum, kernels, sums, crc);
      OneMoreFolded(crcs, sums, res.crc, crc);
      sums, crcs := sums + [crc], crcs + [res.crc];
      FoldChecksum(res, crc, cells);
      crc := BenchOnce(res, list0, -1, findNum, kernels(2 * i + 1), cells, records, data);
      OneMoreChecksum(cells, records, data, findNum, kernels, sums, crc);
      OneMoreFolded(crcs, sums, res.crc, crc);
      sums, crcs := sums + [crc], crcs + [res.crc];
      FoldChecksum(res, crc, cells);
      if i == 0 {
        KeepChecksum(res, cells);
      }
    }
  }

  lemma NoChecksums(cells: seq<Cell>, records: Records, data: map<Cell, U16>, findNum: S16, kernels: nat -> Kernel)
    requires |cells| >= 3
    ensures AreChecksums(cells, records, data, findNum, kernels, [])
    ensures AreFolded([], []) && CrcAfter([], [], 0) == Zeros(16)
  {
  }

  /** After calls that gave the list back, the next one does so exactly when its condition holds. */
  method NextCall(res: Results, list0: Cell, findNum: S16, n: nat, kernels: nat -> Kernel, ghost cells: seq<Cell>)
    returns (list: Cell, retval: Word, ghost out: seq<Cell>)
    requires IsList(list0, cells) && InfosApart(cells) && |cells| >= 3
    requires forall m :: 0 <= m < n ==> ComesBack(cells, RecordsOf(cells), DataOf(cells), NthCall(m, findNum, kernels))
    modifies cells, Infos(cells)`data16, res
    ensures IsList(list, out) && Elems(out) == Elems(cells) && |out| == |cells|
    ensures IsRestored(cells, out, old(DataOf(cells))) <==>
            ComesBack(cells, old(RecordsOf(cells)), old(DataOf(cells)), NthCall(n, findNum, kernels))
  {
    hide ComesBack, InfosApart, Infos, RecordsOf, DataOf, IsList, IsChecksum, IsRestored;
    ghost var records, data, infos := RecordsOf(cells), DataOf(cells), Infos(cells);
    for m := 0 to n
      invariant IsList(list0, cells) && InfosApart(cells) && Infos(cells) == infos
      invariant RecordsOf(cells) == records && DataOf(cells) == data
    {
      assert ComesBack(cells, records, data, NthCall(m, findNum, kernels));
      var crc := BenchOnce(res, list0, if m % 2 == 0 then 1 else -1, findNum, kernels(m), cells, records, data);
      FoldChecksum(res, crc, cells);
    }
    list, retval, out := BenchList(res, list0, if n % 2 == 0 then 1 else -1, findNum, kernels(n), cells);
  }

  /** From an initialised block of which the list always comes back, any number of iterations ends with the list as it
      was built. */
  method BuildAndIterate(blksize: nat, seed: S16, findNum: S16, iterations: nat, kernels: nat -> Kernel)
    returns (list: Cell, ghost cells: seq<Cell>, ghost from: seq<int>, ghost sums: seq<Word>,
             res: Results, ghost crcs: seq<Word>)
    requires 4 <= blksize / 20 - 2 < 0x8000 && BuiltComesBack(blksize / 20 - 2, seed, findNum)
    ensures |sums| == 2 * iterations && AreFolded(crcs, sums)
    ensures res.crc == CrcAfter(crcs, sums, 2 * iterations)
    ensures res.crclist == CrcAfter(crcs, sums, Min(2, 2 * iterations))
    ensures IsList(list, cells) && |cells| >= 3 && IsBuilt(cells, from, blksize / 20 - 2, seed)
    ensures AreChecksums(cells, RecordsOf(cells), DataOf(cells), findNum, kernels, sums)
  {
    hide InfosApart, RecordsOf, DataOf, IsList, IsBuiltOnRecord, BuiltComesBack, ComesBack, IsChecksum, AreChecksums,
         RunComesBack, AreFolded, CrcAfter;
    res := new Results();
    list, cells, from := InitList(blksize, seed);
    ListFacts(list, cells);
    BuiltCallsComeBack(cells, from, blksize / 20 - 2, seed, findNum, kernels);
    sums, crcs := Iterate(res, list, findNum, iterations, kernels, cells);
  }

  lemma BuiltCallsComeBack(cells: seq<Cell>, from: seq<int>, size: nat, seed: S16, findNum: S16,
                           kernels: nat -> Kernel)
    requires IsBuilt(cells, from, size, seed) && Distinct(cells) && size < 0x8000
    requires BuiltComesBack(size, seed, findNum)
    ensures forall n: nat :: ComesBack(cells, RecordsOf(cells), DataOf(cells), NthCall(n, findNum, kernels))
  {
    hide RecordsOf, DataOf, IsBuiltOnRecord, BuiltComesBack, ComesBack, RunComesBack;
    BuiltRunIff(cells, from, size, seed, RecordsOf(cells), DataOf(cells), findNum);
    EveryCallComesBack(cells, RecordsOf(cells), DataOf(cells), findNum, kernels);
  }

  lemma EveryCallComesBack(cells: seq<Cell>, records: Records, data: map<Cell, U16>, findNum: S16,
                           kernels: nat -> Kernel)
    requires RunComesBack(cells, IndicesOf(records), data, findNum)
    ensures forall n: nat :: ComesBack(cells, records, data, NthCall(n, findNum, kernels))
  {
    hide AlwaysComesBack, ComesBack;
    forall n: nat
      ensures ComesBack(cells, records, data, NthCall(n, findNum, kernels))
    {
      EveryKernel(cells, records, data, NthCall(n, findNum, kernels));
    }
  }

  /** A call whose condition does not hold loses a built list: afterwards its cells, data words and all, come in another
      order. */
  method LoseBuilt(res: Results, list0: Cell, finderIdx: S16, findNum: S16, kernel: Kernel, size: nat, seed: S16,
                   ghost cells: seq<Cell>, ghost from: seq<int>)
    returns (list: Cell, retval: Word, ghost out: seq<Cell>)
    requires IsList(list0, cells) && InfosApart(cells) && |cells| >= 3 && IsBuilt(cells, from, size, seed)
    requires !ComesBack(cells, RecordsOf(cells), DataOf(cells), Call(finderIdx, findNum, kernel))
    modifies cells, Infos(cells)`data16, res
    ensures IsList(list, out) && Elems(out) == Elems(cells) && |out| == |cells| && out != cells
    ensures IsBuilt(cells, from, size, seed)
  {
    hide IsStrict, InfosApart, RecordsOf, DataOf, IsList, IsBuiltOnRecord, ComesBack, GoesBefore, IsRestored, Holds,
         Infos, IsChecksum;
    RecordKeys(cells);
    ghost var records, data := RecordsOf(cells), DataOf(cells);
    BuiltFacts(cells, from, size, seed, records, data);
    list, retval, out := BenchList(res, list0, finderIdx, findNum, kernel, cells);
    WordsComeBack(cells, data);
    StillOnRecord(cells, records, data);
  }

  /** Data words with both bytes alike survive every call. */
  lemma WordsComeBack(cells: seq<Cell>, data: map<Cell, U16>)
    requires Regenerated(cells, data) && forall x <- cells :: BytesAlike(data, x)
    ensures IsRestored(cells, cells, data)
  {
    forall i | 0 <= i < |cells|
      ensures cells[i].info.data16 == data[cells[i]]
    {
      assert cells[i] in cells;
    }
  }
}
