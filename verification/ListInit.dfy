/** How the benchmark's list is built. */
module ListInit {
  import opened Collections
  import opened ListBench
  import opened ListCells
  import opened ListIndices
  import opened ListOrders
  import opened ListPositions
  import opened ListPromise
  import opened MergeSort

  /** The data items of a list, cell by cell. */
  ghost predicate HasItems(cells: seq<Cell>, items: seq<(S16, U16)>)
    reads cells`info, Infos(cells)
  {
    && |items| == |cells|
    && forall k :: 0 <= k < |cells| ==> cells[k].info.idx == items[k].0 && cells[k].info.data16 == items[k].1
  }

  ghost function InsertedAfterHead<T>(s: seq<T>, x: T): seq<T>
    requires s != []
  {
    [s[0], x] + s[1..]
  }

  method LinkBehindHead(list: Cell, cell: Cell, ghost cells: seq<Cell>, ghost more: seq<(S16, U16)>)
    requires IsList(list, cells) && cells != [] && cell !in cells
    requires InfosApart(InsertedAfterHead(cells, cell)) && HasItems(InsertedAfterHead(cells, cell), more)
    modifies list`next, cell`next
    ensures IsList(list, InsertedAfterHead(cells, cell))
    ensures InfosApart(InsertedAfterHead(cells, cell)) && HasItems(InsertedAfterHead(cells, cell), more)
  {
    hide InsertedAfterHead;
    cell.next := list.next;
    list.next := cell;
    ChainAfterInsert(cells, cell);
  }

  lemma ChainAfterInsert(cells: seq<Cell>, cell: Cell)
    requires Distinct(cells) && cells != [] && cell !in cells
    requires cells[0].next == cell && cell.next == NodeAt(cells, 1)
    requires forall k :: 1 <= k < |cells| ==> cells[k].next == NodeAt(cells, k + 1)
    ensures IsList(cells[0], InsertedAfterHead(cells, cell))
  {
    var r := InsertedAfterHead(cells, cell);
    forall k | 0 <= k < |r|
      ensures r[k].next == NodeAt(r, k + 1)
    {
      if k >= 2 {
        assert r[k] == cells[k - 1];
      }
    }
  }

  lemma ApartAfterInsert(cells: seq<Cell>, cell: Cell)
    requires InfosApart(cells) && cells != [] && cell.info !in Infos(cells)
    ensures InfosApart(InsertedAfterHead(cells, cell))
  {
    var r := InsertedAfterHead(cells, cell);
    forall i, j | 0 <= i < j < |r|
      ensures r[i].info != r[j].info
    {
      assert r[i] == cell || (r[i] == cells[if i == 0 then 0 else i - 1] && r[i].info in Infos(cells));
      assert r[j] == cell || (r[j] == cells[j - 1] && r[j].info in Infos(cells));
    }
  }

  lemma ItemsAfterInsert(cells: seq<Cell>, items: seq<(S16, U16)>, cell: Cell)
    requires HasItems(cells, items) && cells != []
    ensures items != []
    ensures HasItems(InsertedAfterHead(cells, cell), InsertedAfterHead(items, (cell.info.idx, cell.info.data16)))
  {
  }

  method NewCell(data16: U16, idx: S16, ghost cells: seq<Cell>) returns (cell: Cell)
    ensures fresh(cell) && fresh(cell.info) && cell.info.idx == idx && cell.info.data16 == data16 && cell.next == null
    ensures cell !in cells && cell.info !in Infos(cells)
  {
    var info := new ListData(data16, idx);
    cell := new Cell(info);
  }

  /** Puts a new cell right behind the head; `used` counts the cells the block already holds. */
  method InsertNew(list: Cell, idx: S16, data16: U16, used: nat, size: nat, ghost cells: seq<Cell>,
                   ghost items: seq<(S16, U16)>)
    returns (newItem: Cell?, ghost r: seq<Cell>, ghost more: seq<(S16, U16)>)
    requires IsList(list, cells) && cells != [] && InfosApart(cells) && HasItems(cells, items)
    modifies list`next
    ensures IsList(list, r) && InfosApart(r) && HasItems(r, more)
    ensures used + 1 >= size ==> newItem == null && r == cells && more == items
    ensures used + 1 < size ==> newItem != null && fresh(newItem) && fresh(newItem.info)
    ensures used + 1 < size ==>
      var cell: Cell := newItem;
      r == InsertedAfterHead(cells, cell) && more == InsertedAfterHead(items, (idx, data16))
  {
    r, more := cells, items;
    if used + 1 >= size {
      return null, r, more;
    }
    hide IsList, InfosApart, HasItems, InsertedAfterHead, Infos;
    var cell := NewCell(data16, idx, cells);
    ApartAfterInsert(cells, cell);
    ItemsAfterInsert(cells, items, cell);
    newItem, r, more := cell, InsertedAfterHead(cells, cell), InsertedAfterHead(items, (idx, data16));
    LinkBehindHead(list, cell, cells, more);
  }

  /** The head and the tail item are in place, and the words between them are those inserted, the last one first. */
  predicate AreFilled(items: seq<(S16, U16)>, seed: S16) {
    && |items| >= 2 && items[0].0 == 0 && items[|items| - 1].0 == 0x7fff
    && forall k :: 0 <= k < |items| ==> items[k].1 == WordOf(|items| + 1, seed, k)
  }

  lemma FillOne(items: seq<(S16, U16)>, i: nat, seed: S16)
    requires AreFilled(items, seed) && |items| == i + 2
    ensures AreFilled(InsertedAfterHead(items, (0x7fff, DataAt(i, seed))), seed)
  {
    hide DataAt;
    var more := InsertedAfterHead(items, (0x7fff, DataAt(i, seed)));
    forall k | 0 <= k < |more|
      ensures more[k].1 == WordOf(|more| + 1, seed, k)
    {
      assert more[k] == if k == 1 then (0x7fff, DataAt(i, seed)) else items[if k == 0 then 0 else k - 1];
    }
  }

  /** The head and, behind it, the tail item. */
  method NewEnds(size: nat, seed: S16) returns (list: Cell, ghost cells: seq<Cell>, ghost items: seq<(S16, U16)>)
    requires size >= 3
    ensures IsList(list, cells) && InfosApart(cells) && HasItems(cells, items) && |cells| == 2
    ensures AreFilled(items, seed) && fresh(list)
    ensures forall k :: 0 <= k < |cells| ==> fresh(cells[k]) && fresh(cells[k].info)
  {
    list := NewCell(0x8080, 0, []);
    var tail;
    tail, cells, items := InsertNew(list, 0x7fff, 0xffff, 1, size, [list], [(0, 0x8080)]);
  }

  /** Fills the block: as many cells as fit, the tail item last. */
  method Fill(size: nat, seed: S16) returns (list: Cell, ghost cells: seq<Cell>, ghost items: seq<(S16, U16)>)
    requires 3 <= size < 0x8000
    ensures IsList(list, cells) && InfosApart(cells) && HasItems(cells, items) && |cells| == size - 1
    ensures AreFilled(items, seed) && fresh(list)
    ensures forall k :: 0 <= k < |cells| ==> fresh(cells[k]) && fresh(cells[k].info)
  {
    hide IsList, InfosApart, HasItems, DataAt, AreFilled;
    list, cells, items := NewEnds(size, seed);
    var used := 2;
    for i := 0 to size
      invariant IsList(list, cells) && InfosApart(cells) && HasItems(cells, items)
      invariant AreFilled(items, seed) && fresh(list)
      invariant forall k :: 0 <= k < |cells| ==> fresh(cells[k]) && fresh(cells[k].info)
      invariant |cells| == used == if i + 2 < size then i + 2 else size - 1
    {
      if used + 1 < size {
        ItemsLength(cells, items, seed);
        FillOne(items, i, seed);
      }
      var newItem;
      ghost var before := cells;
      newItem, cells, items := InsertNew(list, 0x7fff, DataAt(i, seed), used, size, cells, items);
      if newItem != null {
        used := used + 1;
        assert forall k :: 0 <= k < |cells| ==>
          cells[k] == if k == 1 then newItem else before[if k == 0 then 0 else k - 1];
      }
    }
  }

  /** The items once the cells before position `i` have their indices. */
  function Numbered(items: seq<(S16, U16)>, size: nat, seed: S16, i: nat): (r: seq<(S16, U16)>)
    requires |items| + 1 == size < 0x8000
    ensures |r| == |items|
  {
    seq(|items|, k requires 0 <= k < |items| => (if k < i then IndexOf(size, seed, k) else items[k].0, items[k].1))
  }

  lemma NumberedEnds(items: seq<(S16, U16)>, size: nat, seed: S16)
    requires AreFilled(items, seed) && |items| + 1 == size < 0x8000
    ensures Numbered(items, size, seed, 1) == items
    ensures Numbered(items, size, seed, |items| - 1) == Numbered(items, size, seed, |items|)
  {
    hide IndexAt;
  }

  lemma NumberedNext(items: seq<(S16, U16)>, size: nat, seed: S16, i: nat)
    requires |items| + 1 == size < 0x8000 && 1 <= i < |items| - 1
    ensures Numbered(items, size, seed, i + 1) ==
            Numbered(items, size, seed, i)[i := (IndexAt(size, seed, i), items[i].1)]
  {
    hide IndexAt;
  }

  /** Gives the cell at position `i` its index. */
  method SetIndex(finder: Cell, idx: S16, ghost cells: seq<Cell>, ghost items: seq<(S16, U16)>, ghost i: nat)
    requires i < |cells| && finder == cells[i] && InfosApart(cells) && HasItems(cells, items)
    modifies finder.info`idx
    ensures HasItems(cells, items[i := (idx, items[i].1)])
  {
    finder.info.idx := idx;
    forall k | 0 <= k < |cells| && k != i
      ensures cells[k].info != finder.info
    {
    }
  }

  /** Gives every cell between the ends its index. */
  method AssignIndices(list: Cell, size: nat, seed: S16, ghost cells: seq<Cell>, ghost items: seq<(S16, U16)>)
    requires IsList(list, cells) && InfosApart(cells) && HasItems(cells, items)
    requires AreFilled(items, seed) && |cells| + 1 == size < 0x8000
    modifies Infos(cells)`idx
    ensures HasItems(cells, Numbered(items, size, seed, |cells|))
  {
    hide IndexAt, Numbered, HasItems, InfosApart, AreFilled;
    ghost var infos := Infos(cells);
    ItemsLength(cells, items, seed);
    NumberedEnds(items, size, seed);
    var finder := list.next;
    var i := 1;
    while finder.next != null
      invariant 1 <= i < |cells| && finder == cells[i]
      invariant HasItems(cells, Numbered(items, size, seed, i))
      decreases |cells| - i
    {
      assert finder.info in infos;
      NumberedNext(items, size, seed, i);
      NumberedKeepsData(items, size, seed, i);
      SetIndex(finder, IndexAt(size, seed, i), cells, Numbered(items, size, seed, i), i);
      i := i + 1;
      finder := finder.next;
    }
  }

  lemma ItemsLength(cells: seq<Cell>, items: seq<(S16, U16)>, seed: S16)
    requires HasItems(cells, items) && AreFilled(items, seed)
    ensures |items| == |cells| >= 2
  {
  }

  lemma NumberedKeepsData(items: seq<(S16, U16)>, size: nat, seed: S16, i: nat)
    requires |items| + 1 == size < 0x8000
    ensures forall k :: 0 <= k < |items| ==> Numbered(items, size, seed, i)[k].1 == items[k].1
  {
  }

  /** Index and upper byte on record are those of the positions. */
  ghost predicate Indexed(cells: seq<Cell>, records: Records, size: nat, seed: S16) {
    && |cells| + 1 == size < 0x8000
    && forall k :: 0 <= k < |cells| ==>
         && cells[k] in records && records[cells[k]].idx == IndexOf(size, seed, k)
         && records[cells[k]].high == High(WordOf(size, seed, k))
  }

  lemma ItemsAreIndexed(cells: seq<Cell>, items: seq<(S16, U16)>, records: Records, size: nat, seed: S16)
    requires AreFilled(items, seed) && |items| == |cells| && |cells| + 1 == size < 0x8000
    requires HasItems(cells, Numbered(items, size, seed, |cells|)) && Holds(cells, records)
    ensures Indexed(cells, records, size, seed)
  {
    hide IndexOf, WordOf;
    forall k | 0 <= k < |cells|
      ensures cells[k] in records && records[cells[k]].idx == IndexOf(size, seed, k)
      ensures records[cells[k]].high == High(WordOf(size, seed, k))
    {
      assert records[cells[k]] == RecordOf(cells[k]);
    }
  }

  /** Records and data words of a list as it is built: the cells stand in the order of the positions, and each has the
      index and the data word of the position it was inserted at, `from`. */
  ghost predicate IsBuiltOnRecord(cells: seq<Cell>, from: seq<int>, size: nat, seed: S16, records: Records,
                                  data: map<Cell, U16>)
  {
    && IsPositionOrder(size, seed, from) && |from| == |cells|
    && (forall k :: 0 <= k < |cells| ==> cells[k] in records && cells[k] in data)
    && (forall k :: 0 <= k < |cells| ==>
          && records[cells[k]].idx == IndexOf(size, seed, from[k])
          && data[cells[k]] == WordOf(size, seed, from[k]))
  }

  ghost predicate IsBuilt(cells: seq<Cell>, from: seq<int>, size: nat, seed: S16)
    reads cells`info, Infos(cells)
  {
    IsBuiltOnRecord(cells, from, size, seed, RecordsOf(cells), DataOf(cells))
  }

  lemma SortedIsBuilt(cells: seq<Cell>, out: seq<Cell>, from: seq<int>, records: Records, size: nat, seed: S16)
    requires Indexed(cells, records, size, seed) && Rearranges(cells, out, from) && Holds(out, records)
    requires SortedStably(ByIndex, out, from)
    ensures IsBuilt(out, from, size, seed)
  {
    hide IndexOf, WordOf;
    forall k | 0 <= k < |out|
      ensures out[k] in RecordsOf(out) && out[k] in DataOf(out)
      ensures out[k].info.idx == RecordsOf(out)[out[k]].idx == IndexOf(size, seed, from[k])
      ensures DataOf(out)[out[k]] == WordOf(size, seed, from[k])
    {
      InfoIsRead(out, out[k]);
      assert records[out[k]] == RecordOf(out[k]) && Settled(ByIndex, out[k].info);
      WordBytesAlike(size, seed, from[k]);
    }
    forall i, j | 0 <= i < j < |out|
      ensures IndexOf(size, seed, from[i]) < IndexOf(size, seed, from[j]) ||
              (IndexOf(size, seed, from[i]) == IndexOf(size, seed, from[j]) && from[i] < from[j])
    {
      assert KeyOf(ByIndex, out[i].info) <= KeyOf(ByIndex, out[j].info);
    }
  }

  lemma BuiltFacts(cells: seq<Cell>, from: seq<int>, size: nat, seed: S16, records: Records, data: map<Cell, U16>)
    requires IsBuiltOnRecord(cells, from, size, seed, records, data)
    ensures IsPositionOrder(size, seed, from) && |from| == |cells| && |cells| + 1 == size
    ensures forall x <- cells :: x in records && BytesAlike(data, x)
  {
    hide IndexOf, WordOf;
    forall x | x in cells
      ensures x in records && BytesAlike(data, x)
    {
      var i :| 0 <= i < |cells| && cells[i] == x;
      WordBytesAlike(size, seed, from[i]);
    }
  }

  /** A built list's indices ascend strictly exactly when those it was given are all different. */
  lemma BuiltIsStrictIff(cells: seq<Cell>, from: seq<int>, size: nat, seed: S16, records: Records, data: map<Cell, U16>)
    requires IsBuiltOnRecord(cells, from, size, seed, records, data)
    ensures IsStrict(cells, records, data) <==> AreDistinct(size, seed)
  {
    hide IndexOf, WordOf;
    BuiltFacts(cells, from, size, seed, records, data);
    if AreDistinct(size, seed) {
      forall i, j | 0 <= i < j < |cells|
        ensures records[cells[i]].idx < records[cells[j]].idx
      {
        AreDifferent(size, seed, from[i], from[j]);
      }
    } else {
      var p, q :| 0 <= p < q && q + 1 < size && IndexOf(size, seed, p) == IndexOf(size, seed, q);
      var i := PositionOccurs(size, seed, from, p);
      var j := PositionOccurs(size, seed, from, q);
      assert records[cells[i]].idx == records[cells[j]].idx;
    }
  }

  /** A built list comes back from every call, for whatever index and however often it searches, exactly when its
      indices are all different. */
  lemma BuiltListsComeBackIff(cells: seq<Cell>, from: seq<int>, size: nat, seed: S16, records: Records,
                              data: map<Cell, U16>)
    requires IsBuiltOnRecord(cells, from, size, seed, records, data) && Distinct(cells)
    ensures AreDistinct(size, seed) <==> forall call: Call :: ComesBack(cells, records, data, call)
  {
    hide IsBuiltOnRecord, IsStrict, ComesBack, AreDistinct;
    BuiltFacts(cells, from, size, seed, records, data);
    BuiltIsStrictIff(cells, from, size, seed, records, data);
    EveryCallIff(cells, records, data);
  }

  /** A built list comes back from both calls of an iteration, whatever the kernels return, exactly when size, seed and
      the number of searches meet `BuiltComesBack`. */
  lemma BuiltRunIff(cells: seq<Cell>, from: seq<int>, size: nat, seed: S16, records: Records, data: map<Cell, U16>,
                    findNum: S16)
    requires IsBuiltOnRecord(cells, from, size, seed, records, data) && Distinct(cells)
    ensures size < 0x8000
    ensures RunComesBack(cells, IndicesOf(records), data, findNum) <==> BuiltComesBack(size, seed, findNum)
  {
    hide AlwaysComesBack, IsPositionOrder;
    BuiltFacts(cells, from, size, seed, records, data);
    OrderIsDistinct(size, seed, from);
    var indices, words := PositionIndices(size, seed), PositionWords(size, seed);
    var partner := Partners(from, cells);
    PartnersAreSame(cells, from, size, seed, records, data);
    ComesBackRenamed(from, cells, partner, indices, words, IndicesOf(records), data, 1, findNum);
    ComesBackRenamed(from, cells, partner, indices, words, IndicesOf(records), data, -1, findNum);
    OnlyOrder(size, seed, from, findNum);
  }

  lemma OnlyOrder(size: nat, seed: S16, order: seq<int>, findNum: S16)
    requires IsPositionOrder(size, seed, order)
    ensures size < 0x8000
    ensures BuiltComesBack(size, seed, findNum) <==>
            RunComesBack(order, PositionIndices(size, seed), PositionWords(size, seed), findNum)
  {
    hide RunComesBack, IndexOf;
    forall other: seq<int> | IsPositionOrder(size, seed, other)
      ensures other == order
    {
      PositionOrderIsUnique(size, seed, order, other);
    }
  }

  lemma OrderIsDistinct(size: nat, seed: S16, order: seq<int>)
    requires IsPositionOrder(size, seed, order)
    ensures Distinct(order) && size < 0x8000
  {
  }

  ghost function Partners(from: seq<int>, cells: seq<Cell>): map<int, Cell>
    requires |from| == |cells|
  {
    map p | p in from :: cells[Index(from, p)]
  }

  lemma PartnersAreSame(cells: seq<Cell>, from: seq<int>, size: nat, seed: S16, records: Records, data: map<Cell, U16>)
    requires IsBuiltOnRecord(cells, from, size, seed, records, data)
    ensures size < 0x8000 && |from| == |cells| && IsRenamed(from, cells, Partners(from, cells))
    ensures SameItems(Partners(from, cells), PositionIndices(size, seed), PositionWords(size, seed), IndicesOf(records),
                      data)
  {
    hide IndexOf, WordOf;
    var partner := Partners(from, cells);
    forall i | 0 <= i < |from|
      ensures from[i] in partner && partner[from[i]] == cells[i]
    {
      IndexIs(from, i);
    }
    forall p | p in partner
      ensures p in PositionIndices(size, seed) && partner[p] in IndicesOf(records)
      ensures PositionIndices(size, seed)[p] == IndicesOf(records)[partner[p]]
      ensures p in PositionWords(size, seed) && partner[p] in data && PositionWords(size, seed)[p] == data[partner[p]]
    {
      var k := Index(from, p);
      assert from[k] == p && partner[p] == cells[k];
    }
  }

  /** The last step: sorting the filled list by its new indices. */
  method SortByIndices(list0: Cell, size: nat, seed: S16, ghost cells: seq<Cell>, ghost items: seq<(S16, U16)>)
    returns (list: Cell, ghost out: seq<Cell>, ghost from: seq<int>)
    requires IsList(list0, cells) && InfosApart(cells) && AreFilled(items, seed) && |items| == |cells|
    requires |cells| + 1 == size < 0x8000 && HasItems(cells, Numbered(items, size, seed, |cells|))
    modifies cells`next, Infos(cells)`data16
    ensures IsList(list, out) && InfosApart(out) && |out| == |cells| && IsBuilt(out, from, size, seed)
    ensures Elems(out) == Elems(cells) && Infos(out) == old(Infos(cells))
  {
    hide IsList, InfosApart, HasItems, Holds, Rearranges, SortedStably, RecordsOf, Infos, IndexOf, Numbered, AreFilled,
         Indexed, IsBuilt, KeysKept;
    ghost var records := RecordsOf(cells);
    AtLeastTwo(items, seed);
    ListFacts(list0, cells);
    StartSort(ByIndex, cells);
    ItemsAreIndexed(cells, items, records, size, seed);
    list, out, from := SortKeeping(ByIndex, list0, cells, records);
    RearrangesFacts(cells, out, from);
    SortedIsBuilt(cells, out, from, records, size, seed);
  }

  lemma AtLeastTwo(items: seq<(S16, U16)>, seed: S16)
    requires AreFilled(items, seed)
    ensures |items| >= 2
  {
  }

  /** Builds the benchmark's list in a block: filled, indexed and sorted by index. */
  method InitList(blksize: nat, seed: S16) returns (list: Cell, ghost out: seq<Cell>, ghost from: seq<int>)
    requires 3 <= blksize / 20 - 2 < 0x8000
    ensures IsList(list, out) && InfosApart(out) && |out| == blksize / 20 - 3
    ensures IsBuilt(out, from, blksize / 20 - 2, seed)
    ensures fresh(list) && forall k :: 0 <= k < |out| ==> fresh(out[k]) && fresh(out[k].info)
  {
    hide IsList, InfosApart, HasItems, Infos, Numbered, AreFilled, IsBuilt, Elems;
    var size := blksize / 20 - 2;
    ghost var cells, items;
    list, cells, items := Fill(size, seed);
    ItemsLength(cells, items, seed);
    assert forall d <- Infos(cells) :: fresh(d) by { InfosAre(cells); }
    AssignIndices(list, size, seed, cells, items);
    list, out, from := SortByIndices(list, size, seed, cells, items);
    SubsetOf(out, cells);
    forall k | 0 <= k < |out|
      ensures fresh(out[k].info)
    {
      InfoIsRead(out, out[k]);
    }
    ListHead(list, out);
  }

  lemma ListHead(list: Cell, out: seq<Cell>)
    requires IsList(list, out) && out != []
    ensures list == out[0]
  {
  }

  lemma InfosAre(cells: seq<Cell>)
    ensures forall d <- Infos(cells) :: exists k :: 0 <= k < |cells| && cells[k].info == d
  {
  }

  lemma RearrangesFacts(cells: seq<Cell>, out: seq<Cell>, from: seq<int>)
    requires Rearranges(cells, out, from)
    ensures |out| == |cells| == |from|
  {
  }
}
