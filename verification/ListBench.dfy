/** The list benchmark: searches, reversals, relinking, two sorts and a removal that is undone. */
module ListBench {
  import opened Collections
  import opened Crc
  import opened ListCells
  import opened ListChecksum
  import opened ListOrders
  import opened MergeOrder
  import opened MergeSort

  // ----- searching

  /** A negative index asks for a lower data byte instead. */
  predicate Matches(d: ListData, idx: S16, data16: U16)
    reads d
  {
    if idx >= 0 then d.idx == idx else Low(d.data16) == data16
  }

  /** The first match stands at position `k`; there is none when `k` is the length. */
  ghost predicate IsFirstMatch(cells: seq<Cell>, k: nat, idx: S16, data16: U16)
    reads cells`info, Infos(cells)
  {
    && k <= |cells|
    && (forall j :: 0 <= j < k ==> !Matches(cells[j].info, idx, data16))
    && (k < |cells| ==> Matches(cells[k].info, idx, data16))
  }

  /** The first matching cell, or null when there is none. */
  method Find(list: Cell?, idx: S16, data16: U16, ghost cells: seq<Cell>) returns (r: Cell?)
    requires IsList(list, cells)
    ensures exists k: nat :: IsFirstMatch(cells, k, idx, data16) && r == NodeAt(cells, k)
  {
    r := list;
    ghost var k := 0;
    if idx >= 0 {
      while r != null && r.info.idx != idx
        invariant k <= |cells| && r == NodeAt(cells, k)
        invariant forall j :: 0 <= j < k ==> !Matches(cells[j].info, idx, data16)
        decreases |cells| - k
      {
        r := r.next;
        k := k + 1;
      }
    } else {
      while r != null && Low(r.info.data16) != data16
        invariant k <= |cells| && r == NodeAt(cells, k)
        invariant forall j :: 0 <= j < k ==> !Matches(cells[j].info, idx, data16)
        decreases |cells| - k
      {
        r := r.next;
        k := k + 1;
      }
    }
  }

  // ----- reversing

  /** The first `k` links lead backwards, the others still forwards. */
  ghost predicate HalfReversed(cells: seq<Cell>, k: int)
    reads cells`next
  {
    && (forall j {:trigger cells[j].next} :: 0 <= j < |cells| && j < k ==> cells[j].next == NodeAt(cells, j - 1))
    && (forall j {:trigger cells[j].next} :: 0 <= j < |cells| && k <= j ==> cells[j].next == NodeAt(cells, j + 1))
  }

  method ReverseLink(cell: Cell, next: Cell?, ghost cells: seq<Cell>, ghost k: int) returns (tmp: Cell?)
    requires Distinct(cells) && HalfReversed(cells, k) && 0 <= k < |cells|
    requires cell == cells[k] && next == NodeAt(cells, k - 1)
    modifies cell`next
    ensures HalfReversed(cells, k + 1) && tmp == NodeAt(cells, k + 1)
  {
    tmp := cell.next;
    cell.next := next;
  }

  method Reverse(list0: Cell?, ghost cells: seq<Cell>) returns (r: Cell?)
    requires IsList(list0, cells)
    modifies cells`next
    ensures IsList(r, Backwards(cells))
  {
    hide HalfReversed;
    var list := list0;
    var next: Cell? := null;
    ghost var k := 0;
    HalfReversedEnds(cells);
    while list != null
      invariant 0 <= k <= |cells| && list == NodeAt(cells, k) && next == NodeAt(cells, k - 1)
      invariant HalfReversed(cells, k)
      decreases |cells| - k
    {
      var tmp := ReverseLink(list, next, cells, k);
      next := list;
      list := tmp;
      k := k + 1;
    }
    r := next;
    BackwardsDistinct(cells);
    HalfReversedEnds(cells);
  }

  lemma HalfReversedEnds(cells: seq<Cell>)
    ensures Chained(cells, 0) ==> HalfReversed(cells, 0)
    ensures HalfReversed(cells, |cells|) ==> Chained(Backwards(cells), 0)
  {
    if HalfReversed(cells, |cells|) {
      var back := Backwards(cells);
      forall i | 0 <= i < |back|
        ensures back[i].next == NodeAt(back, i + 1)
      {
        assert back[i] == cells[|cells| - 1 - i];
      }
    }
  }

  // ----- removing and undoing

  /** Removes the data item of `item` by swapping it into the following cell and unlinking that cell. */
  method Remove(item: Cell, ghost cells: seq<Cell>, ghost k: nat) returns (ret: Cell)
    requires IsList(NodeAt(cells, 0), cells) && k + 1 < |cells| && item == cells[k]
    modifies cells[k], cells[k + 1]
    ensures ret == cells[k + 1]
    ensures item.info == old(ret.info) && ret.info == old(item.info)
    ensures item.next == old(ret.next) && ret.next == null
    ensures IsList(NodeAt(cells, 0), cells[..k + 1] + cells[k + 2..])
  {
    ret := item.next;
    var tmp := item.info;
    item.info := ret.info;
    ret.info := tmp;
    item.next := item.next.next;
    ret.next := null;
    Unlinked(cells, k);
  }

  lemma Unlinked(cells: seq<Cell>, k: nat)
    requires Distinct(cells) && k + 1 < |cells|
    requires forall j :: 0 <= j < |cells| && j != k && j != k + 1 ==> cells[j].next == NodeAt(cells, j + 1)
    requires cells[k].next == NodeAt(cells, k + 2)
    ensures IsList(NodeAt(cells, 0), cells[..k + 1] + cells[k + 2..])
  {
    var rest := cells[..k + 1] + cells[k + 2..];
    forall j | 0 <= j < |rest|
      ensures rest[j].next == NodeAt(rest, j + 1)
    {
      assert rest[j] == cells[if j <= k then j else j + 1];
    }
  }

  method UndoRemove(removed: Cell, modified: Cell)
    requires removed != modified
    modifies removed, modified
    ensures removed.info == old(modified.info) && modified.info == old(removed.info)
    ensures removed.next == old(modified.next) && modified.next == removed
  {
    var tmp := removed.info;
    removed.info := modified.info;
    modified.info := tmp;
    removed.next := modified.next;
    modified.next := removed;
  }

  /** Folds the head's data word into the checksum, once for every cell from `finder0` on. */
  method FoldHead(list: Cell, finder0: Cell?, retval0: Word, ghost cells: seq<Cell>, ghost k: nat)
    returns (retval: Word)
    requires IsList(list, cells) && k <= |cells| && finder0 == NodeAt(cells, k)
    ensures retval == Folded(ToWord(list.info.data16), |cells| - k, retval0)
  {
    hide Run, ToWord;
    retval := retval0;
    var finder := finder0;
    ghost var i: nat := k;
    while finder != null
      invariant k <= i <= |cells| && finder == NodeAt(cells, i)
      invariant retval == Folded(ToWord(list.info.data16), i - k, retval0)
      decreases |cells| - i
    {
      retval := CrcU16(ToWord(list.info.data16), retval);
      finder := finder.next;
      i := i + 1;
    }
  }

  /** The data words are those on record. */
  ghost predicate HasData(cells: seq<Cell>, data: map<Cell, U16>)
    reads cells`info, Infos(cells)
  {
    forall i :: 0 <= i < |cells| ==> cells[i] in data && cells[i].info.data16 == data[cells[i]]
  }

  ghost function IndicesOf(records: Records): Indices<Cell> {
    map x | x in records :: records[x].idx
  }

  /** `rest` holds the items on record for `left`. */
  ghost predicate HoldsItems(rest: seq<Cell>, left: seq<Cell>, records: Records, data: map<Cell, U16>)
    reads rest`info, Infos(rest)
  {
    |rest| == |left| && forall j :: 0 <= j < |left| ==>
      && left[j] in records && rest[j].info.idx == records[left[j]].idx
      && left[j] in data && rest[j].info.data16 == data[left[j]]
  }

  /** While `rest` holds the items of `left`, finding in it is finding by the records of `left`. */
  lemma MatchByItems(rest: seq<Cell>, left: seq<Cell>, records: Records, data: map<Cell, U16>, k: nat, idx: S16,
                     data16: U16)
    requires HoldsItems(rest, left, records, data) && IsFirstMatch(rest, k, idx, data16)
    ensures k == FirstWanted(left, IndicesOf(records), data, idx, data16)
  {
    forall j | 0 <= j < |left|
      ensures Matches(rest[j].info, idx, data16) <==> IsWanted(IndicesOf(records), data, left[j], idx, data16)
    {
    }
    FirstIsFirst(left, IndicesOf(records), data, idx, data16, k);
  }

  lemma ItemsOnRecord(cells: seq<Cell>, records: Records, data: map<Cell, U16>)
    requires Holds(cells, records) && HasData(cells, data)
    ensures forall j :: 0 <= j < |cells| ==>
      && cells[j] in records && cells[j].info.idx == records[cells[j]].idx
      && cells[j] in data && cells[j].info.data16 == data[cells[j]]
  {
    forall j | 0 <= j < |cells|
      ensures cells[j] in records && cells[j].info.idx == records[cells[j]].idx
    {
      assert records[cells[j]] == RecordOf(cells[j]);
    }
  }

  /** Folds the head's data word once for every cell from the first one wanted on, or else from the second. */
  method FindAndFold(list: Cell, idx: S16, data16: U16, retval0: Word, ghost rest: seq<Cell>, ghost left: seq<Cell>,
                     ghost records: Records, ghost data: map<Cell, U16>)
    returns (retval: Word)
    requires IsList(list, rest) && |rest| >= 2 && HoldsItems(rest, left, records, data)
    ensures var k := FirstWanted(left, IndicesOf(records), data, idx, data16);
            retval == Folded(ToWord(WordAt(data, left[0])), if k < |left| then |left| - k else |left| - 1, retval0)
  {
    hide Matches, Folded, ToWord, FirstWanted, IsFirstMatch;
    var finder := Find(list, idx, data16, rest);
    ghost var k: nat :| IsFirstMatch(rest, k, idx, data16) && finder == NodeAt(rest, k);
    MatchIsInside(rest, k, idx, data16);
    MatchByItems(rest, left, records, data, k, idx, data16);
    if finder == null {
      finder := list.next;
      k := 1;
    }
    retval := FoldHead(list, finder, retval0, rest, k);
  }

  /** Undoing a removal restores every link and every data item; in between, the checksum is folded. */
  method RemoveAndUndo(list: Cell, ghost cells: seq<Cell>, idx: S16, data16: U16, retval0: Word, ghost records: Records,
                       ghost data: map<Cell, U16>)
    returns (retval: Word)
    requires IsList(list, cells) && |cells| >= 3 && Holds(cells, records) && HasData(cells, data)
    modifies cells
    ensures IsList(list, cells)
    ensures forall j :: 0 <= j < |cells| ==> cells[j].info == old(cells[j].info)
    ensures retval == Folded(ToWord(WordAt(data, cells[0])), CellsFrom(cells, IndicesOf(records), data, idx, data16),
                             retval0)
  {
    hide Holds, HasData, Folded, ToWord, FirstWanted;
    ItemsOnRecord(cells, records, data);
    var remover := Remove(list.next, cells, 1);
    retval := FindAndFold(list, idx, data16, retval0, cells[..2] + cells[3..], [cells[0]] + cells[2..], records, data);
    assert list.next == cells[1];
    UndoRemove(remover, list.next);
  }

  lemma MatchIsInside(cells: seq<Cell>, k: nat, idx: S16, data16: U16)
    requires IsFirstMatch(cells, k, idx, data16)
    ensures k <= |cells|
  {
  }

  method RemoveAndRestore(list: Cell, ghost cells: seq<Cell>, idx: S16, data16: U16, retval0: Word,
                          ghost records: Records, ghost data: map<Cell, U16>)
    returns (retval: Word)
    requires IsList(list, cells) && |cells| >= 3 && Holds(cells, records) && HasData(cells, data) && InfosApart(cells)
    modifies cells
    ensures IsList(list, cells) && Holds(cells, records) && SameInfos(cells)
    ensures forall j :: 0 <= j < |cells| ==> cells[j].info == old(cells[j].info)
    ensures retval == Folded(ToWord(WordAt(data, cells[0])), CellsFrom(cells, IndicesOf(records), data, idx, data16),
                             retval0)
  {
    hide FirstWanted, Folded, ToWord;
    retval := RemoveAndUndo(list, cells, idx, data16, retval0, records, data);
    forall j | 0 <= j < |cells|
      ensures RecordOf(cells[j]) == old(RecordOf(cells[j]))
    {
      assert cells[j].info in old(Infos(cells));
    }
  }

  // ----- relinking

  ghost function NextWhenMoved(cells: seq<Cell>, m: nat, j: nat): Cell?
    requires m + 1 < |cells|
  {
    if m == 0 then NodeAt(cells, j + 1)
    else if j == 0 then cells[m + 1]
    else if j == m + 1 then cells[1]
    else if j == m then NodeAt(cells, m + 2)
    else NodeAt(cells, j + 1)
  }

  lemma MovedChain(cells: seq<Cell>, m: nat)
    requires Distinct(cells) && m + 1 < |cells|
    requires forall j :: 0 <= j < |cells| ==> cells[j].next == NextWhenMoved(cells, m, j)
    ensures IsList(cells[0], Moved(cells, m))
  {
    MovedRearranges(cells, m);
    var r := Moved(cells, m);
    forall i | 0 <= i < |r|
      ensures r[i].next == NodeAt(r, i + 1)
    {
      if m > 0 {
        assert r[i] == cells[MovedFrom(m, i)];
      }
    }
  }

  /** Moves the successor of `thisFind` to just behind the head, if there is a successor. */
  method Relink(list: Cell, thisFind: Cell, ghost cells: seq<Cell>, ghost m: nat) returns (ghost r: seq<Cell>)
    requires IsList(list, cells) && m < |cells| && thisFind == cells[m]
    modifies cells`next
    ensures IsList(list, r) && Elems(r) == Elems(cells) && |r| == |cells|
    ensures r == if m + 1 < |cells| then Moved(cells, m) else cells
  {
    r := cells;
    var finder := thisFind.next;
    if finder != null {
      thisFind.next := finder.next;
      finder.next := list.next;
      list.next := finder;
      MovedRearranges(cells, m);
      r := Moved(cells, m);
      MovedChain(cells, m);
    }
  }

  /** The reversal, the bit the search adds to the sum, and the relinking. */
  method Turn(list0: Cell, thisFind: Cell?, ghost cells: seq<Cell>, ghost k: nat)
    returns (list: Cell, bit: nat, ghost r: seq<Cell>)
    requires IsList(list0, cells) && |cells| >= 2 && k <= |cells| && thisFind == NodeAt(cells, k)
    modifies cells`next
    ensures IsList(list, r) && Elems(r) == Elems(cells) && |r| == |cells|
    ensures r == Turned(cells, k)
    ensures bit == if k < |cells| then HitBit(cells[k].info.data16) else MissBit(Backwards(cells)[1].info.data16)
  {
    hide Moved, MissBit, HitBit;
    var turned := Reverse(list0, cells);
    list := turned;
    BackwardsDistinct(cells);
    r := Backwards(cells);
    if thisFind == null {
      bit := MissBit(list.next.info.data16);
    } else {
      bit := HitBit(thisFind.info.data16);
      SubsetOf(r, cells);
      assert r[|cells| - 1 - k] == thisFind;
      r := Relink(list, thisFind, r, |cells| - 1 - k);
    }
  }

  /** Finding by the cells is finding by the records. */
  lemma MatchIsWanted(cells: seq<Cell>, all: seq<Cell>, records: Records, data: map<Cell, U16>, k: nat, idx: S16,
                      data16: U16)
    requires Elems(cells) == Elems(all) && Holds(all, records) && HasData(all, data)
    requires IsFirstMatch(cells, k, idx, data16)
    ensures k == FirstWanted(cells, IndicesOf(records), data, idx, data16)
  {
    forall j | 0 <= j < |cells|
      ensures Matches(cells[j].info, idx, data16) <==> IsWanted(IndicesOf(records), data, cells[j], idx, data16)
    {
      assert cells[j] in Elems(all);
      var i :| 0 <= i < |all| && all[i] == cells[j];
      assert records[all[i]] == RecordOf(all[i]);
    }
    FirstIsFirst(cells, IndicesOf(records), data, idx, data16, k);
  }

  /** One search: the list is reversed, and on a hit the found cell's successor moves up. */
  method FindAndTurn(list0: Cell, idx: S16, data16: U16, ghost cells: seq<Cell>, ghost all: seq<Cell>,
                     ghost records: Records, ghost data: map<Cell, U16>)
    returns (list: Cell, found: bool, bit: nat, ghost r: seq<Cell>)
    requires IsList(list0, cells) && |cells| >= 2 && Elems(cells) == Elems(all)
    requires Holds(all, records) && HasData(all, data) && InfosApart(all)
    modifies cells`next
    ensures Holds(all, records) && HasData(all, data) && SameInfos(all)
    ensures IsList(list, r) && Elems(r) == Elems(cells) && |r| == |cells|
    ensures r == Turned(cells, FirstWanted(cells, IndicesOf(records), data, idx, data16))
    ensures found <==> FirstWanted(cells, IndicesOf(records), data, idx, data16) < |cells|
    ensures bit + (if found then 4 else -1) == SearchGain(cells, IndicesOf(records), data, idx, data16)
  {
    hide Elems, Matches, IsFirstMatch, FirstWanted, MissBit, HitBit, Moved;
    var thisFind := Find(list0, idx, data16, cells);
    ghost var k: nat :| IsFirstMatch(cells, k, idx, data16) && thisFind == NodeAt(cells, k);
    MatchIsWanted(cells, all, records, data, k, idx, data16);
    found := thisFind != null;
    list, bit, r := Turn(list0, thisFind, cells, k);
    WordsAre(cells, all, data);
  }

  lemma WordsAre(cells: seq<Cell>, all: seq<Cell>, data: map<Cell, U16>)
    requires Elems(cells) == Elems(all) && HasData(all, data)
    ensures forall i :: 0 <= i < |cells| ==> WordAt(data, cells[i]) == cells[i].info.data16
  {
    forall i | 0 <= i < |cells|
      ensures WordAt(data, cells[i]) == cells[i].info.data16
    {
      assert cells[i] in Elems(all);
      var j :| 0 <= j < |all| && all[j] == cells[i];
    }
  }

  lemma SubsetOf(r: seq<Cell>, cells: seq<Cell>)
    requires Elems(r) == Elems(cells)
    ensures forall i :: 0 <= i < |r| ==> r[i] in cells
  {
    forall i | 0 <= i < |r|
      ensures r[i] in cells
    {
      assert r[i] in Elems(r);
    }
  }

  // ----- the benchmark

  /** What a call is given: the index to search for, how often to search, and what the kernels return. */
  datatype Call = Call(finderIdx: S16, findNum: S16, kernel: Kernel)

  ghost function Arranged(cells: seq<Cell>, records: Records, data: map<Cell, U16>, call: Call): seq<Cell> {
    Searched(cells, IndicesOf(records), data, call.finderIdx, 0, call.findNum)
  }

  ghost function ValueOf(records: Records, data: map<Cell, U16>, kernel: Kernel, x: Cell): int {
    if x in records && x in data then DestinedValue(kernel, records[x].info, data[x]) else 0
  }

  /** How two cells stand before the sort by index: as the searches left them, or, when the list is sorted by value
      first, by value and then as the searches left them. */
  ghost predicate StandsBefore(cells: seq<Cell>, records: Records, data: map<Cell, U16>, call: Call, x: Cell, y: Cell) {
    var first := ComesFirst(Arranged(cells, records, data, call), x, y);
    if call.finderIdx > 0 then
      var v, w := ValueOf(records, data, call.kernel, x), ValueOf(records, data, call.kernel, y);
      v < w || (v == w && first)
    else first
  }

  /** By index; cells of the same index as they stand before the sort. */
  ghost predicate GoesBefore(cells: seq<Cell>, records: Records, data: map<Cell, U16>, call: Call, x: Cell, y: Cell) {
    && x in records && y in records
    && (records[x].idx < records[y].idx ||
        (records[x].idx == records[y].idx && StandsBefore(cells, records, data, call, x, y)))
  }

  /** The condition on what the caller passes under which the call gives the list back. */
  ghost predicate ComesBack(cells: seq<Cell>, records: Records, data: map<Cell, U16>, call: Call) {
    && (forall i, j :: 0 <= i < j < |cells| ==> GoesBefore(cells, records, data, call, cells[i], cells[j]))
    && (forall i :: 0 <= i < |cells| ==> BytesAlike(data, cells[i]))
  }

  /** Indices ascending, ties as `before` has them, and both bytes of every data word alike. */
  ghost predicate WasPristine(cells: seq<Cell>, records: Records, data: map<Cell, U16>, before: seq<Cell>) {
    && (forall i, j :: 0 <= i < j < |cells| ==> OrderedIn(records, before, cells[i], cells[j]))
    && (forall i :: 0 <= i < |cells| ==> BytesAlike(data, cells[i]))
  }

  /** Indices strictly ascending, and both bytes of every data word alike. */
  ghost predicate IsStrict(cells: seq<Cell>, records: Records, data: map<Cell, U16>) {
    && (forall i :: 0 <= i < |cells| ==> cells[i] in records && BytesAlike(data, cells[i]))
    && (forall i, j :: 0 <= i < j < |cells| ==> records[cells[i]].idx < records[cells[j]].idx)
  }

  ghost predicate OrderedIn(records: Records, before: seq<Cell>, x: Cell, y: Cell) {
    && x in records && y in records
    && (records[x].idx < records[y].idx || (records[x].idx == records[y].idx && ComesFirst(before, x, y)))
  }

  ghost function DataOf(cells: seq<Cell>): map<Cell, U16>
    reads cells`info, Infos(cells)
  {
    map x | x in cells :: InfoIsRead(cells, x); x.info.data16
  }

  /** Runs the searches of one benchmark call and sums up what they found, in sixteen bits. */
  method Searches(list0: Cell, finderIdx: S16, findNum: S16, ghost cells: seq<Cell>, ghost records: Records,
                  ghost data: map<Cell, U16>)
    returns (list: Cell, idx: S16, data16: U16, retval: U16, ghost r: seq<Cell>)
    requires IsList(list0, cells) && |cells| >= 2 && InfosApart(cells) && Holds(cells, records) && HasData(cells, data)
    modifies cells`next
    ensures IsList(list, r) && Elems(r) == Elems(cells) && |r| == |cells|
    ensures Holds(cells, records) && HasData(cells, data) && InfosApart(cells) && Infos(cells) == old(Infos(cells))
    ensures r == Searched(cells, IndicesOf(records), data, finderIdx, 0, findNum)
    ensures idx == IdxAfter(finderIdx, 0, findNum) && data16 == ByteAfter(findNum)
    ensures retval == SearchTotal(cells, IndicesOf(records), data, finderIdx, 0, findNum) % 0x10000
  {
    hide IsList, Holds, HasData, InfosApart, Infos, Matches, Turned, FirstWanted, Elems, SearchGain, IndicesOf;
    list, idx, data16, retval, r := list0, finderIdx, 0, 0, cells;
    var found: int, missed: int := 0, 0;
    ghost var infos, bits: int := Infos(cells), 0;
    var i := 0;
    while i < findNum
      invariant IsList(list, r) && Elems(r) == Elems(cells) && |r| == |cells|
      invariant Holds(cells, records) && HasData(cells, data) && InfosApart(cells) && Infos(cells) == infos
      invariant 0 <= i && (i == 0 || i <= findNum) && data16 == ByteAfter(i)
      invariant Searched(r, IndicesOf(records), data, idx, i, findNum) ==
                Searched(cells, IndicesOf(records), data, finderIdx, 0, findNum)
      invariant IdxAfter(idx, i, findNum) == IdxAfter(finderIdx, 0, findNum) && retval == bits % 0x10000
      invariant bits + 4 * found - missed + SearchTotal(r, IndicesOf(records), data, idx, i, findNum) ==
                SearchTotal(cells, IndicesOf(records), data, finderIdx, 0, findNum)
    {
      SubsetOf(r, cells);
      var hit, bit;
      data16 := i % 256;
      list, hit, bit, r := FindAndTurn(list, idx, data16, r, cells, records, data);
      WrapsAlong(bits, bit);
      retval, bits := (retval + bit) % 0x10000, bits + bit;
      if hit {
        found := found + 1;
      } else {
        missed := missed + 1;
      }
      if idx >= 0 {
        idx := NextIdx(idx);
      }
      i := i + 1;
    }
    WrapsAlong(bits, 4 * found - missed);
    retval := (retval + (4 * found - missed)) % 0x10000;
  }

  lemma WrapsAlong(x: int, y: int)
    ensures (x % 0x10000 + y) % 0x10000 == (x + y) % 0x10000
  {
    assert x == 0x10000 * (x / 0x10000) + x % 0x10000;
  }

  /** Records that hold of the cells in one arrangement hold in any other. */
  lemma HoldsAnyhow(cells: seq<Cell>, r: seq<Cell>, records: Records)
    requires Elems(r) == Elems(cells) && Holds(cells, records) && InfosApart(cells) && Distinct(r)
    ensures Holds(r, records) && InfosApart(r) && Infos(r) == Infos(cells)
    ensures forall x <- r :: x in records && RecordsOf(r)[x] == records[x]
  {
    var marks := MarksOf(ByIndex, cells);
    forall i | 0 <= i < |cells|
      ensures cells[i] in marks && marks[cells[i]] == MarkOf(ByIndex, cells[i].info)
    {
      InfoIsRead(cells, cells[i]);
    }
    Permuted(ByIndex, cells, r, marks, records);
    forall x | x in r
      ensures x in records && RecordsOf(r)[x] == records[x]
    {
      InfoIsRead(r, x);
    }
  }

  /** Sorting keeps the records and the keys it started from. */
  method SortKeeping(order: Order, list0: Cell, ghost cells: seq<Cell>, ghost records: Records)
    returns (list: Cell, ghost out: seq<Cell>, ghost from: seq<int>)
    requires |cells| >= 2 && IsList(list0, cells) && InfosApart(cells) && Holds(cells, records)
    modifies cells`next, Infos(cells)`data16
    modifies Footprint(order)`crc, Footprint(order)`crcstate, Footprint(order)`crcmatrix
    ensures IsList(list, out) && InfosApart(out) && Infos(out) == old(Infos(cells)) && Holds(out, records)
    ensures Elems(out) == Elems(cells) && |out| == |cells|
    ensures Rearranges(cells, out, from) && SortedStably(order, out, from)
    ensures KeysKept(order, out, old(MarksOf(order, cells)))
  {
    HoldsAnyhow(cells, cells, records);
    ghost var current := RecordsOf(cells);
    ghost var passes;
    list, out, from, passes := Mergesort(order, list0, cells);
    RearrangedElems(cells, out, from);
    HoldsEqually(cells, current, records);
    HoldsBack(cells, out, records);
  }

  lemma HoldsEqually(cells: seq<Cell>, current: Records, records: Records)
    requires Holds(cells, current)
    requires forall x <- cells :: x in records && x in current && current[x] == records[x]
    ensures Holds(cells, records)
  {
  }

  lemma HoldsBack(cells: seq<Cell>, out: seq<Cell>, records: Records)
    requires Elems(out) == Elems(cells) && Holds(cells, records)
    ensures Holds(out, records)
  {
    forall i | 0 <= i < |out|
      ensures out[i] in records && records[out[i]] == RecordOf(out[i])
    {
      assert out[i] in Elems(out);
      var k :| 0 <= k < |cells| && cells[k] == out[i];
    }
  }

  lemma RearrangedElems(cells: seq<Cell>, out: seq<Cell>, from: seq<int>)
    requires Rearranges(cells, out, from) && Distinct(cells)
    ensures Elems(out) == Elems(cells)
  {
    assert Elems(out) <= Elems(cells);
    DistinctCount(out);
    DistinctCount(cells);
    SubsetOfSameSize(Elems(out), Elems(cells));
  }

  /** The arrangement `out` is the one the list started in, and every data word has its old value. */
  ghost predicate IsRestored(cells: seq<Cell>, out: seq<Cell>, data: map<Cell, U16>)
    reads cells`info, Infos(cells)
  {
    out == cells && forall i :: 0 <= i < |cells| ==> cells[i] in data && cells[i].info.data16 == data[cells[i]]
  }

  /** Every data word shows its upper byte twice. */
  ghost predicate Regenerated(cells: seq<Cell>, data: map<Cell, U16>)
    reads cells`info, Infos(cells)
  {
    forall i :: 0 <= i < |cells| ==> cells[i] in data && cells[i].info.data16 == Rebuilt(data[cells[i]])
  }

  /** `before` is the arrangement that `StandsBefore` speaks of. */
  ghost predicate IsStanding(cells: seq<Cell>, records: Records, data: map<Cell, U16>, call: Call, before: seq<Cell>) {
    forall x, y :: x in cells && y in cells ==>
      (ComesFirst(before, x, y) <==> StandsBefore(cells, records, data, call, x, y))
  }

  /** The arrangement the sort by index starts from. */
  ghost predicate IsBefore(cells: seq<Cell>, records: Records, data: map<Cell, U16>, call: Call,
                           older before: seq<Cell>)
  {
    && (forall i :: 0 <= i < |before| ==> before[i] in cells)
    && Elems(before) == Elems(cells) && |before| == |cells| && Distinct(before)
    && IsStanding(cells, records, data, call, before)
  }

  /** The data words that sort starts from: results are cached when the list was sorted by value first. */
  ghost function WordsBefore(records: Records, data: map<Cell, U16>, call: Call): map<Cell, U16> {
    if call.finderIdx > 0 then
      map x | x in data && x in records ::
        256 * High(data[x]) + 128 + DestinedValue(call.kernel, records[x].info, data[x])
    else data
  }

  /** What all searches add, in sixteen bits. */
  ghost function SumOf(cells: seq<Cell>, indices: Indices<Cell>, data: map<Cell, U16>, call: Call): U16
    requires |cells| >= 2
  {
    SearchTotal(cells, indices, data, call.finderIdx, 0, call.findNum) % 0x10000
  }

  /** What the call folds up: the sum of the searches, the head's word before the sort by index as often as there are
      cells from the one found on, and the head's word after it for every other cell. */
  ghost function ChecksumOf(cells: seq<Cell>, records: Records, data: map<Cell, U16>, call: Call, before: seq<Cell>,
                            out: seq<Cell>): Word
    requires |cells| == |before| == |out| >= 3
  {
    var indices, words := IndicesOf(records), WordsBefore(records, data, call);
    var total := SumOf(cells, indices, data, call);
    var idx, byte := IdxAfter(call.finderIdx, 0, call.findNum), ByteAfter(call.findNum);
    var middle := Folded(ToWord(WordAt(words, before[0])), CellsFrom(before, indices, words, idx, byte), ToWord(total));
    Folded(ToWord(Rebuilt(WordAt(data, out[0]))), |out| - 1, middle)
  }

  ghost predicate IsChecksum(cells: seq<Cell>, records: Records, data: map<Cell, U16>, call: Call, out: seq<Cell>,
                             retval: Word)
    requires |cells| == |out| >= 3
  {
    exists before :: IsBefore(cells, records, data, call, before) &&
      retval == ChecksumOf(cells, records, data, call, before, out)
  }

  /** List, arguments and kernel results determine the checksum. */
  lemma ChecksumIsDetermined(cells: seq<Cell>, records: Records, data: map<Cell, U16>, call: Call, out: seq<Cell>,
                             a: Word, b: Word)
    requires |cells| == |out| >= 3
    requires IsChecksum(cells, records, data, call, out, a) && IsChecksum(cells, records, data, call, out, b)
    ensures a == b
  {
    hide ChecksumOf, IsStanding;
    var p :| IsBefore(cells, records, data, call, p) && a == ChecksumOf(cells, records, data, call, p, out);
    var q :| IsBefore(cells, records, data, call, q) && b == ChecksumOf(cells, records, data, call, q, out);
    BeforeIsDetermined(cells, records, data, call, p, q);
  }

  lemma BeforeIsDetermined(cells: seq<Cell>, records: Records, data: map<Cell, U16>, call: Call, p: seq<Cell>,
                           q: seq<Cell>)
    requires IsBefore(cells, records, data, call, p) && IsBefore(cells, records, data, call, q)
    ensures p == q
  {
    hide StandsBefore;
    var marks, places: Places<Cell> := map x | x in cells :: Mark(true, 0), map x | x in cells :: Position(p, x);
    StandingIsAscending(cells, records, data, call, p, p);
    StandingIsAscending(cells, records, data, call, p, q);
    OneAscendingOrder(marks, places, p, q);
  }

  ghost function Position(s: seq<Cell>, x: Cell): int {
    if x in s then Index(s, x) else 0
  }

  lemma StandingIsAscending(cells: seq<Cell>, records: Records, data: map<Cell, U16>, call: Call, p: seq<Cell>,
                            q: seq<Cell>)
    requires IsBefore(cells, records, data, call, p) && IsBefore(cells, records, data, call, q)
    ensures Ascending(map x | x in cells :: Mark(true, 0), map x | x in cells :: Position(p, x), q)
  {
    hide StandsBefore;
    var marks, places: Places<Cell> := map x | x in cells :: Mark(true, 0), map x | x in cells :: Position(p, x);
    SubsetOf(q, cells);
    forall i, j | 0 <= i < j < |q|
      ensures Lt(marks, places, q[i], q[j])
    {
      IndexIs(q, i);
      IndexIs(q, j);
      assert ComesFirst(q, q[i], q[j]);
      assert ComesFirst(p, q[i], q[j]);
    }
  }

  /** The first part of a call: the searches and, when the index is positive, the sort by value. */
  method UpToRemoval(res: Results, list0: Cell, finderIdx: S16, findNum: S16, kernel: Kernel, ghost cells: seq<Cell>,
                     ghost records: Records, ghost data: map<Cell, U16>)
    returns (list: Cell, idx: S16, data16: U16, sum: U16, ghost before: seq<Cell>)
    requires IsList(list0, cells) && InfosApart(cells) && |cells| >= 3 && Holds(cells, records) && HasData(cells, data)
    requires forall x <- cells :: x in data && x in records && records[x].high == High(data[x])
    modifies cells`next, Infos(cells)`data16, res`crc, res`crcstate, res`crcmatrix
    ensures IsList(list, before) && IsBefore(cells, records, data, Call(finderIdx, findNum, kernel), before)
    ensures Holds(before, records) && HasData(before, WordsBefore(records, data, Call(finderIdx, findNum, kernel)))
    ensures InfosApart(before) && Infos(before) == old(Infos(cells))
    ensures idx == IdxAfter(finderIdx, 0, findNum) && data16 == ByteAfter(findNum)
    ensures sum == SearchTotal(cells, IndicesOf(records), data, finderIdx, 0, findNum) % 0x10000
    ensures finderIdx <= 0 ==>
      res.crc == old(res.crc) && res.crcstate == old(res.crcstate) && res.crcmatrix == old(res.crcmatrix)
  {
    hide IsList, Holds, HasData, InfosApart, Infos, SortedStably, Rearranges, MarksOf, KeysKept, StandsBefore, Searched,
         ValueOf, IsStanding, SearchTotal, WordsBefore, IndicesOf, IdxAfter, ByteAfter, High;
    ghost var call := Call(finderIdx, findNum, kernel);
    list, idx, data16, sum, before := Searches(list0, finderIdx, findNum, cells, records, data);
    ListFacts(list, before);
    HoldsAnyhow(cells, before, records);
    SearchedStands(cells, records, data, call, before);
    SubsetOf(before, cells);
    DataAnyhow(cells, before, data);
    if finderIdx > 0 {
      ghost var from, searched, marks := [], before, MarksOf(ByValue(res, kernel), before);
      MarksAreValues(ByValue(res, kernel), cells, before, records, data);
      list, before, from := SortKeeping(ByValue(res, kernel), list, before, records);
      ListFacts(list, before);
      SubsetOf(before, cells);
      SortedStands(ByValue(res, kernel), cells, searched, before, from, records, data, call, marks);
      SortedWords(ByValue(res, kernel), cells, before, from, records, data, call, marks);
    } else {
      WordsStay(records, data, call);
    }
  }

  /** The last fold, over all cells behind the head; it changes nothing. */
  method FoldLast(list: Cell, retval0: Word, ghost cells: seq<Cell>, ghost out: seq<Cell>, ghost from: seq<int>,
                  ghost records: Records, ghost data: map<Cell, U16>)
    returns (retval: Word)
    requires IsList(list, out) && |out| >= 2 && Holds(cells, records) && Holds(out, records) && InfosApart(cells)
    requires |from| == |out| && SortedStably(ByIndex, out, from) && Regenerated(cells, data)
    ensures IsList(list, out) && Holds(cells, records) && Holds(out, records) && InfosApart(cells)
    ensures Infos(cells) == old(Infos(cells)) && SortedStably(ByIndex, out, from) && Regenerated(cells, data)
    ensures retval == Folded(ToWord(old(out[0].info.data16)), |out| - 1, retval0)
  {
    hide Folded, ToWord;
    HeadAndNext(list, out);
    retval := FoldHead(list, list.next, retval0, out, 1);
  }

  /** The sort by index that ends a call, and the words folded after it. */
  method SortAndFold(list0: Cell, retval0: Word, ghost before: seq<Cell>, ghost cells: seq<Cell>,
                     ghost records: Records, ghost data: map<Cell, U16>)
    returns (list: Cell, retval: Word, ghost out: seq<Cell>, ghost from: seq<int>)
    requires IsList(list0, before) && InfosApart(before) && Holds(before, records) && Elems(before) == Elems(cells)
    requires |before| == |cells| >= 3 && Distinct(cells)
    requires forall x <- cells :: x in data && x in records && records[x].high == High(data[x])
    modifies before`next, Infos(before)`data16
    ensures IsList(list, out) && Elems(out) == Elems(cells) && |out| == |cells| && Holds(out, records)
    ensures Rearranges(before, out, from) && SortedStably(ByIndex, out, from)
    ensures Holds(cells, records) && InfosApart(cells) && Infos(cells) == old(Infos(before))
    ensures Regenerated(cells, data)
    ensures retval == Folded(ToWord(Rebuilt(WordAt(data, out[0]))), |out| - 1, retval0)
  {
    hide IsList, Holds, InfosApart, Infos, SortedStably, Rearranges, MarksOf, KeysKept, Regenerated, WordAt, Folded,
         ToWord, Distinct, Elems, High;
    list, out, from := SortKeeping(ByIndex, list0, before, records);
    ListFacts(list, out);
    HoldsAnyhow(out, cells, records);
    SettledData(cells, out, records, data, from);
    HeadWord(cells, out, data);
    retval := FoldLast(list, retval0, cells, out, from, records, data);
  }

  /** One benchmark call: it gives the list back, arrangement and data words, exactly when `ComesBack` holds of what it
      was given. */
  method BenchList(res: Results, list0: Cell, finderIdx: S16, findNum: S16, kernel: Kernel, ghost cells: seq<Cell>)
    returns (list: Cell, retval: Word, ghost out: seq<Cell>)
    requires IsList(list0, cells) && InfosApart(cells) && |cells| >= 3
    modifies cells, Infos(cells)`data16, res`crc, res`crcstate, res`crcmatrix
    ensures IsList(list, out) && Elems(out) == Elems(cells) && |out| == |cells|
    ensures Holds(cells, old(RecordsOf(cells))) && SameInfos(cells) && Regenerated(cells, old(DataOf(cells)))
    ensures forall i, j :: 0 <= i < j < |out| ==>
      GoesBefore(cells, old(RecordsOf(cells)), old(DataOf(cells)), Call(finderIdx, findNum, kernel), out[i], out[j])
    ensures IsRestored(cells, out, old(DataOf(cells))) <==>
            ComesBack(cells, old(RecordsOf(cells)), old(DataOf(cells)), Call(finderIdx, findNum, kernel))
    ensures IsChecksum(cells, old(RecordsOf(cells)), old(DataOf(cells)), Call(finderIdx, findNum, kernel), out, retval)
    ensures IsStrict(cells, old(RecordsOf(cells)), old(DataOf(cells))) ==>
            IsList(list, cells) && IsRestored(cells, out, old(DataOf(cells)))
    ensures finderIdx <= 0 ==>
      res.crc == old(res.crc) && res.crcstate == old(res.crcstate) && res.crcmatrix == old(res.crcmatrix)
  {
    hide IsStrict, IsList, Holds, HasData, InfosApart, Infos, SortedStably, Rearranges, RecordsOf, DataOf, MarksOf,
         KeysKept, WasPristine, ComesBack, GoesBefore, IsRestored, OrderedIn, Regenerated, IsStanding, IsChecksum,
         ChecksumOf, SearchTotal, CellsFrom, WordsBefore, IndicesOf, IdxAfter, ByteAfter, WordAt, Folded, ToWord, Run,
         High, IsBefore, Distinct, Elems;
    ghost var records, data, call := RecordsOf(cells), DataOf(cells), Call(finderIdx, findNum, kernel);
    ListFacts(list0, cells);
    StartSort(ByIndex, cells);
    DataMatches(cells, records, data);
    var idx, data16, sum;
    ghost var before, from;
    list, idx, data16, sum, before := UpToRemoval(res, list0, finderIdx, findNum, kernel, cells, records, data);
    BeforeFacts(cells, records, data, call, before);
    ghost var words := WordsBefore(records, data, call);
    retval := RemoveAndRestore(list, before, idx, data16, ToWord(sum), records, words);
    list, retval, out, from := SortAndFold(list, retval, before, cells, records, data);
    ChecksumIs(cells, records, data, call, before, out, retval);
    CallEnds(cells, before, list, out, from, records, data, call);
  }

  /** What is left to be shown of a call. */
  lemma CallEnds(cells: seq<Cell>, before: seq<Cell>, list: Cell, out: seq<Cell>, from: seq<int>, records: Records,
                 data: map<Cell, U16>, call: Call)
    requires Distinct(cells) && IsList(list, out) && |out| == |cells| && Elems(out) == Elems(cells)
    requires IsBefore(cells, records, data, call, before)
    requires Rearranges(before, out, from) && SortedStably(ByIndex, out, from) && Holds(out, records)
    requires forall x <- cells :: x in data && x in records && records[x].high == High(data[x])
    ensures forall i, j :: 0 <= i < j < |out| ==> GoesBefore(cells, records, data, call, out[i], out[j])
    ensures IsRestored(cells, out, data) <==> ComesBack(cells, records, data, call)
    ensures IsStrict(cells, records, data) ==> IsList(list, cells) && IsRestored(cells, out, data)
  {
    hide IsStrict, IsList, Holds, SortedStably, Rearranges, ComesBack, GoesBefore, IsRestored, IsBefore, Distinct,
         Elems;
    ListFacts(list, out);
    OrderOfOut(cells, before, out, from, records, data, call);
    StrictComesBack(cells, records, data, call);
    RestoredIsSame(cells, out, data);
  }

  lemma BeforeFacts(cells: seq<Cell>, records: Records, data: map<Cell, U16>, call: Call, before: seq<Cell>)
    requires IsBefore(cells, records, data, call, before)
    ensures Elems(before) == Elems(cells) && |before| == |cells| && forall i :: 0 <= i < |before| ==> before[i] in cells
  {
  }

  /** What the sort by index makes of the arrangement it started from. */
  lemma OrderOfOut(cells: seq<Cell>, before: seq<Cell>, out: seq<Cell>, from: seq<int>, records: Records,
                   data: map<Cell, U16>, call: Call)
    requires Distinct(cells) && Distinct(out) && |out| == |cells| && Elems(out) == Elems(cells)
    requires IsBefore(cells, records, data, call, before)
    requires Rearranges(before, out, from) && SortedStably(ByIndex, out, from) && Holds(out, records)
    requires forall x <- cells :: x in data && x in records && records[x].high == High(data[x])
    ensures forall i, j :: 0 <= i < j < |out| ==> GoesBefore(cells, records, data, call, out[i], out[j])
    ensures IsRestored(cells, out, data) <==> ComesBack(cells, records, data, call)
  {
    hide IsStanding, GoesBefore, ComesBack, IsRestored, OrderedIn, Rearranges, SortedStably, Holds, WasPristine, High;
    OutIsOrdered(before, out, from, records);
    OrderedGoesBefore(cells, before, out, records, data, call);
    RestoredIff(cells, before, out, from, records, data);
    PristineComesBack(cells, before, records, data, call);
  }

  lemma SearchedStands(cells: seq<Cell>, records: Records, data: map<Cell, U16>, call: Call, before: seq<Cell>)
    requires before == Arranged(cells, records, data, call)
    ensures call.finderIdx <= 0 ==> IsStanding(cells, records, data, call, before)
  {
    hide Searched;
  }

  lemma MarksAreValues(order: Order, cells: seq<Cell>, before: seq<Cell>, records: Records, data: map<Cell, U16>)
    requires order.ByValue? && Elems(before) == Elems(cells) && Holds(cells, records) && HasData(cells, data)
    ensures forall x <- cells :: x in MarksOf(order, before) &&
                                 MarksOf(order, before)[x].key == ValueOf(records, data, order.kernel, x)
  {
    forall x | x in cells
      ensures x in MarksOf(order, before) && MarksOf(order, before)[x].key == ValueOf(records, data, order.kernel, x)
    {
      assert x in Elems(before);
      InfoIsRead(before, x);
      var i :| 0 <= i < |cells| && cells[i] == x;
      assert records[cells[i]] == RecordOf(cells[i]);
    }
  }

  lemma SortedStands(order: Order, cells: seq<Cell>, searched: seq<Cell>, before: seq<Cell>, from: seq<int>,
                     records: Records, data: map<Cell, U16>, call: Call, marks: Marks<Cell>)
    requires order.ByValue? && order.kernel == call.kernel && call.finderIdx > 0
    requires searched == Arranged(cells, records, data, call) && Distinct(searched) && Distinct(before)
    requires Elems(before) == Elems(cells)
    requires Rearranges(searched, before, from) && SortedStably(order, before, from) && KeysKept(order, before, marks)
    requires forall x <- cells :: x in marks && marks[x].key == ValueOf(records, data, call.kernel, x)
    ensures IsStanding(cells, records, data, call, before)
  {
    hide Searched, ValueOf;
    forall x, y | x in cells && y in cells
      ensures ComesFirst(before, x, y) <==> StandsBefore(cells, records, data, call, x, y)
    {
      assert x in Elems(before) && y in Elems(before);
      var i, j := Index(before, x), Index(before, y);
      SortedPair(order, cells, searched, before, from, records, data, call, marks, i, j);
      SortedPair(order, cells, searched, before, from, records, data, call, marks, j, i);
    }
  }

  /** A cell stands before another in the sorted list exactly when its position is smaller. */
  lemma SortedPair(order: Order, cells: seq<Cell>, searched: seq<Cell>, before: seq<Cell>, from: seq<int>,
                   records: Records, data: map<Cell, U16>, call: Call, marks: Marks<Cell>, i: nat, j: nat)
    requires order.ByValue? && order.kernel == call.kernel && call.finderIdx > 0 && i < |before| && j < |before|
    requires searched == Arranged(cells, records, data, call) && Distinct(searched) && Elems(before) == Elems(cells)
    requires Rearranges(searched, before, from) && SortedStably(order, before, from) && KeysKept(order, before, marks)
    requires forall x <- cells :: x in marks && marks[x].key == ValueOf(records, data, call.kernel, x)
    ensures i < j ==> StandsBefore(cells, records, data, call, before[i], before[j])
    ensures i < j || i == j ==> !StandsBefore(cells, records, data, call, before[j], before[i])
  {
    hide Searched, ValueOf, SortedStably;
    if i <= j {
      assert before[i] in Elems(cells) && before[j] in Elems(cells);
      assert before[i] == searched[from[i]] && before[j] == searched[from[j]];
      assert Index(searched, before[i]) == from[i] && Index(searched, before[j]) == from[j];
      if i < j {
        SortedAt(order, before, from, i, j);
      }
    }
  }

  lemma SortedAt(order: Order, before: seq<Cell>, from: seq<int>, i: nat, j: nat)
    requires |from| == |before| && SortedStably(order, before, from) && i < j < |before|
    ensures KeyOf(order, before[i].info) < KeyOf(order, before[j].info) ||
            (KeyOf(order, before[i].info) == KeyOf(order, before[j].info) && from[i] < from[j])
  {
  }

  lemma PristineComesBack(cells: seq<Cell>, before: seq<Cell>, records: Records, data: map<Cell, U16>, call: Call)
    requires IsStanding(cells, records, data, call, before)
    ensures WasPristine(cells, records, data, before) <==> ComesBack(cells, records, data, call)
  {
    hide StandsBefore, ComesFirst;
    forall i, j | 0 <= i < j < |cells|
      ensures OrderedIn(records, before, cells[i], cells[j]) <==>
              GoesBefore(cells, records, data, call, cells[i], cells[j])
    {
    }
  }

  lemma OrderedGoesBefore(cells: seq<Cell>, before: seq<Cell>, out: seq<Cell>, records: Records, data: map<Cell, U16>,
                          call: Call)
    requires IsStanding(cells, records, data, call, before) && Elems(out) == Elems(cells)
    requires forall i, j :: 0 <= i < j < |out| ==> OrderedIn(records, before, out[i], out[j])
    ensures forall i, j :: 0 <= i < j < |out| ==> GoesBefore(cells, records, data, call, out[i], out[j])
  {
    hide StandsBefore, ComesFirst;
    SubsetOf(out, cells);
  }

  /** Data words on record hold in any arrangement. */
  lemma DataAnyhow(cells: seq<Cell>, r: seq<Cell>, data: map<Cell, U16>)
    requires Elems(r) == Elems(cells) && HasData(cells, data)
    ensures HasData(r, data)
  {
    forall i | 0 <= i < |r|
      ensures r[i] in data && r[i].info.data16 == data[r[i]]
    {
      assert r[i] in Elems(cells);
      var j :| 0 <= j < |cells| && cells[j] == r[i];
    }
  }

  lemma WordsStay(records: Records, data: map<Cell, U16>, call: Call)
    requires call.finderIdx <= 0
    ensures WordsBefore(records, data, call) == data
  {
  }

  /** After the sort by value every data word shows its value as cached. */
  lemma SortedWords(order: Order, cells: seq<Cell>, before: seq<Cell>, from: seq<int>, records: Records,
                    data: map<Cell, U16>, call: Call, marks: Marks<Cell>)
    requires order.ByValue? && order.kernel == call.kernel && call.finderIdx > 0 && |from| == |before|
    requires Elems(before) == Elems(cells) && SortedStably(order, before, from) && KeysKept(order, before, marks)
    requires Holds(before, records)
    requires forall x <- cells :: x in data && x in records && records[x].high == High(data[x])
    requires forall x <- cells :: x in marks && marks[x].key == ValueOf(records, data, call.kernel, x)
    ensures HasData(before, WordsBefore(records, data, call))
  {
    var words := WordsBefore(records, data, call);
    forall i | 0 <= i < |before|
      ensures before[i] in words && before[i].info.data16 == words[before[i]]
    {
      assert before[i] in Elems(cells);
      assert records[before[i]] == RecordOf(before[i]) && Settled(order, before[i].info);
      CachedWord(before[i].info.data16);
    }
  }

  lemma CachedWord(data: U16)
    requires Cached(data)
    ensures data == 256 * High(data) + 128 + Value(data)
  {
  }

  lemma HeadAndNext(list: Cell, out: seq<Cell>)
    requires IsList(list, out) && |out| >= 2
    ensures list == out[0] && list.next == NodeAt(out, 1)
  {
  }

  lemma HeadWord(cells: seq<Cell>, out: seq<Cell>, data: map<Cell, U16>)
    requires Regenerated(cells, data) && Elems(out) == Elems(cells) && out != []
    ensures out[0].info.data16 == Rebuilt(WordAt(data, out[0]))
  {
    assert out[0] in Elems(cells);
    var i :| 0 <= i < |cells| && cells[i] == out[0];
  }

  lemma ChecksumIs(cells: seq<Cell>, records: Records, data: map<Cell, U16>, call: Call, before: seq<Cell>,
                   out: seq<Cell>, retval: Word)
    requires |cells| == |before| == |out| >= 3 && IsBefore(cells, records, data, call, before)
    requires
      var indices, words := IndicesOf(records), WordsBefore(records, data, call);
      var total := SearchTotal(cells, indices, data, call.finderIdx, 0, call.findNum) % 0x10000;
      var idx, byte := IdxAfter(call.finderIdx, 0, call.findNum), ByteAfter(call.findNum);
      retval == Folded(ToWord(Rebuilt(WordAt(data, out[0]))), |out| - 1,
                       Folded(ToWord(WordAt(words, before[0])), CellsFrom(before, indices, words, idx, byte),
                              ToWord(total)))
    ensures IsChecksum(cells, records, data, call, out, retval)
  {
    hide IsBefore, Folded, ToWord, SearchTotal, CellsFrom, IdxAfter, Rebuilt;
    assert retval == ChecksumOf(cells, records, data, call, before, out);
  }

  lemma StrictComesBack(cells: seq<Cell>, records: Records, data: map<Cell, U16>, call: Call)
    ensures IsStrict(cells, records, data) ==> ComesBack(cells, records, data, call)
  {
    hide IsStrict, ComesBack;
    if IsStrict(cells, records, data) {
      StrictListsComeBack(cells, records, data, call);
    }
  }

  lemma RestoredIsSame(cells: seq<Cell>, out: seq<Cell>, data: map<Cell, U16>)
    ensures IsRestored(cells, out, data) ==> out == cells
  {
  }

  lemma DataMatches(cells: seq<Cell>, records: Records, data: map<Cell, U16>)
    requires Holds(cells, records) && data == DataOf(cells)
    ensures forall x <- cells :: x in data && x in records && records[x].high == High(data[x])
    ensures HasData(cells, data)
  {
    forall x | x in cells
      ensures x in data && x in records && records[x].high == High(data[x]) && x.info.data16 == data[x]
    {
      InfoIsRead(cells, x);
      var i :| 0 <= i < |cells| && cells[i] == x;
      assert records[cells[i]] == RecordOf(cells[i]);
    }
  }

  /** The list comes back exactly when it was in index order, with ties as they stand before the last sort,
      and both bytes of every data word were alike. */
  lemma RestoredIff(cells: seq<Cell>, before: seq<Cell>, out: seq<Cell>, from: seq<int>, records: Records,
                    data: map<Cell, U16>)
    requires Distinct(cells) && Distinct(before) && Distinct(out) && |out| == |cells|
    requires Elems(before) == Elems(cells) && Elems(out) == Elems(cells)
    requires Rearranges(before, out, from) && SortedStably(ByIndex, out, from) && Holds(out, records)
    requires forall x <- cells :: x in data && x in records && records[x].high == High(data[x])
    ensures IsRestored(cells, out, data) <==> WasPristine(cells, records, data, before)
  {
    OutIsOrdered(before, out, from, records);
    SettledData(cells, out, records, data, from);
    if IsRestored(cells, out, data) {
      forall i | 0 <= i < |cells|
        ensures BytesAlike(data, cells[i])
      {
        assert cells[i].info.data16 == data[cells[i]];
      }
    }
    if WasPristine(cells, records, data, before) {
      OrderIsUnique(cells, before, out, records);
      forall i | 0 <= i < |cells|
        ensures cells[i] in data && cells[i].info.data16 == data[cells[i]]
      {
        assert BytesAlike(data, cells[i]);
      }
    }
  }

  lemma OutIsOrdered(before: seq<Cell>, out: seq<Cell>, from: seq<int>, records: Records)
    requires Distinct(before) && Rearranges(before, out, from) && SortedStably(ByIndex, out, from) &&
             Holds(out, records)
    ensures forall i, j :: 0 <= i < j < |out| ==> OrderedIn(records, before, out[i], out[j])
  {
    forall i, j | 0 <= i < j < |out|
      ensures OrderedIn(records, before, out[i], out[j])
    {
      assert records[out[i]] == RecordOf(out[i]) && records[out[j]] == RecordOf(out[j]);
      assert out[i] == before[from[i]] && out[j] == before[from[j]];
      assert Index(before, out[i]) == from[i] && Index(before, out[j]) == from[j];
    }
  }

  /** After the last sort every data word is rebuilt from its upper byte. */
  lemma SettledData(cells: seq<Cell>, out: seq<Cell>, records: Records, data: map<Cell, U16>, from: seq<int>)
    requires |from| == |out| && SortedStably(ByIndex, out, from) && Holds(out, records) && Elems(out) == Elems(cells)
    requires forall x <- cells :: x in data && x in records && records[x].high == High(data[x])
    ensures Regenerated(cells, data)
  {
    forall i | 0 <= i < |cells|
      ensures cells[i].info.data16 == Rebuilt(data[cells[i]])
    {
      assert cells[i] in Elems(out);
      var k :| 0 <= k < |out| && out[k] == cells[i];
      assert Settled(ByIndex, out[k].info) && records[out[k]] == RecordOf(out[k]);
    }
  }

  lemma OrderIsUnique(cells: seq<Cell>, before: seq<Cell>, out: seq<Cell>, records: Records)
    requires Elems(out) == Elems(cells) == Elems(before) && |out| == |cells|
    requires forall i, j :: 0 <= i < j < |out| ==> OrderedIn(records, before, out[i], out[j])
    requires forall i, j :: 0 <= i < j < |cells| ==> OrderedIn(records, before, cells[i], cells[j])
    ensures out == cells
  {
    var marks, places := map x | x in records :: Mark(true, records[x].idx), PlacesOf(before);
    OrderedIsAscending(cells, before, records, marks, places);
    OrderedIsAscending(out, before, records, marks, places);
    OneAscendingOrder(marks, places, out, cells);
  }

  lemma OrderedIsAscending(s: seq<Cell>, before: seq<Cell>, records: Records, marks: Marks<Cell>, places: Places<Cell>)
    requires forall i, j :: 0 <= i < j < |s| ==> OrderedIn(records, before, s[i], s[j])
    requires marks == map x | x in records :: Mark(true, records[x].idx)
    requires places == PlacesOf(before)
    ensures Ascending(marks, places, s)
  {
    forall i, j | 0 <= i < j < |s|
      ensures Lt(marks, places, s[i], s[j])
    {
      assert OrderedIn(records, before, s[i], s[j]);
    }
  }

  /** Strictly ascending indices and equal bytes are enough for every call. */
  lemma StrictListsComeBack(cells: seq<Cell>, records: Records, data: map<Cell, U16>, call: Call)
    requires IsStrict(cells, records, data)
    ensures ComesBack(cells, records, data, call)
  {
    hide StandsBefore;
  }
}
