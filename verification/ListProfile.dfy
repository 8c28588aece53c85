/** The profile run's seed in blocks of 840 to 1639 bytes, where two cells have the same index. */
module ListProfile {
  import opened Arithmetic
  import opened ByteLogic
  import opened Collections
  import opened ListBench
  import opened ListCells
  import opened ListIndices
  import opened ListInit
  import opened ListOrders
  import opened ListPositions
  import opened ListRuns
  import opened MergeSort

  // ----- which positions have the same index

  predicate IsTieSize(size: nat) {
    40 <= size < 80
  }

  /** Position 15 is given the index of position 7. */
  lemma FifteenIsSeven(size: nat)
    requires IsTieSize(size)
    ensures IndexOf(size, 8, 7) == IndexOf(size, 8, 15) == 7
  {
    hide Mixed, Xor;
    MixedParts(15, 8);
    XorOfEight(15);
  }

  /** No other two positions have the same index. */
  lemma OnlyOneTie(size: nat, p: nat, q: nat)
    requires IsTieSize(size) && p < q && q + 1 < size && IndexOf(size, 8, p) == IndexOf(size, 8, q)
    ensures p == 7 && q == 15
  {
    hide Mixed, Xor, FallsLow, Max;
    if !(size / 5 <= q && q + 2 < size && FallsLow(size, 8, q)) {
      PairDiffers(size, 8, p, q);
    }
    FallsLowIsFifteen(size, q);
    FifteenIsSeven(size);
    SevenIsSeven(size, p);
  }

  lemma FallsLowIsFifteen(size: nat, q: nat)
    requires IsTieSize(size) && size / 5 <= q && q + 2 < size && FallsLow(size, 8, q)
    ensures q == 15
  {
    hide Xor;
    XorOfEight(q);
  }

  lemma SevenIsSeven(size: nat, p: nat)
    requires IsTieSize(size) && p < 15 && IndexOf(size, 8, p) == 7
    ensures p == 7
  {
    hide Mixed;
    MixedParts(p, 8);
  }

  // ----- the data words

  /** The seven bits both bytes of an inserted word hold. */
  function SevenBits(i: nat): nat {
    8 * ((i + 8) % 16) + i % 8
  }

  lemma WordOfEight(i: nat)
    requires i < 256
    ensures DataAt(i, 8) == 257 * SevenBits(i) && SevenBits(i) < 128
    ensures var w := DataAt(i, 8); Low(w) == Value(w) == SevenBits(i) && (UsesKernel(w) <==> i % 8 <= 1)
  {
    hide Xor;
    LowFour(i);
    DoubledByte(SevenBits(i));
  }

  lemma LowFour(i: nat)
    requires i < 256
    ensures Xor16(i, 8) % 16 == (i + 8) % 16
  {
    hide Xor, Xor16;
    PatternParts(i, 8);
    assert i / 256 == 0 && i % 256 == i;
    XorOfEight(i);
    LowFourOfLowEight(Xor16(i, 8), Xor(i, 8));
    if i >= 8 {
      Sixteens(i);
    }
  }

  lemma Sixteens(i: nat)
    requires i >= 8
    ensures (i - 8) % 16 == (i + 8) % 16
  {
    RemainderIs((i - 8) / 16 + 1, 16, (i - 8) % 16);
  }

  lemma LowFourOfLowEight(x: nat, y: nat)
    requires x % 256 == y
    ensures x % 16 == y % 16
  {
    assert x == 16 * (16 * (x / 256)) + y;
  }

  lemma DoubledByte(v: nat)
    requires v < 128
    ensures var w: U16 := 257 * v; Low(w) == Value(w) == v && w % 8 == v % 8 && !Cached(w)
  {
    RepeatedByte(v);
    assert 257 * v == 128 * (2 * v) + v && 257 * v == 8 * (32 * v) + v;
  }

  /** The tied words: sorted by value, position 7 stays first exactly for these sizes. */
  lemma TiedWords(size: nat)
    requires IsTieSize(size)
    ensures var v, w := WordOf(size, 8, 7), WordOf(size, 8, 15);
            && (UsesKernel(v) <==> size % 8 in {2, 3}) && (UsesKernel(w) <==> size % 8 in {2, 3})
            && Value(v) != Value(w) && (Value(v) < Value(w) <==> 2 <= size % 16 <= 9)
  {
    hide DataAt, UsesKernel, Value, SevenBits;
    WordOfEight(size - 10);
    WordOfEight(size - 18);
    InsertedWord(size, 7);
    InsertedWord(size, 15);
    TiedBits(size);
  }

  lemma InsertedWord(size: nat, p: nat)
    requires 0 < p && p + 3 <= size
    ensures p + 2 < size ==> WordOf(size, 8, p) == DataAt(size - 3 - p, 8)
  {
    hide DataAt;
  }

  /** Eight more, and modulo eight. */
  lemma Eighths(i: nat)
    ensures var r := i % 16;
            (i + 8) % 16 == (if r < 8 then r + 8 else r - 8) && i % 8 == (if r < 8 then r else r - 8)
  {
    var q, r := i / 16, i % 16;
    assert i == 16 * q + r;
    if r < 8 {
      RemainderIs(q, 16, r + 8);
      RemainderIs(2 * q, 8, r);
    } else {
      RemainderIs(q + 1, 16, r - 8);
      RemainderIs(2 * q + 1, 8, r - 8);
    }
  }

  lemma TenBack(size: nat)
    requires IsTieSize(size)
    ensures var b := size % 16; (size - 10) % 16 == if b < 10 then b + 6 else b - 10
  {
    var q, b := size / 16, size % 16;
    assert size == 16 * q + b;
    if b < 10 {
      RemainderIs(q - 1, 16, b + 6);
    } else {
      RemainderIs(q, 16, b - 10);
    }
  }

  lemma TiedBits(size: nat)
    requires IsTieSize(size)
    ensures (size - 10) % 8 == (size - 18) % 8 && ((size - 10) % 8 <= 1 <==> size % 8 in {2, 3})
    ensures SevenBits(size - 10) != SevenBits(size - 18)
    ensures SevenBits(size - 10) < SevenBits(size - 18) <==> 2 <= size % 16 <= 9
  {
    TenBack(size);
    Eighths(size);
    Eighths(size - 10);
    Eighths(size - 18);
  }

  // ----- the two calls

  ghost function Indices8(size: nat): Indices<int>
    requires IsTieSize(size)
  {
    PositionIndices(size, 8)
  }

  ghost function Words8(size: nat): Words<int> {
    PositionWords(size, 8)
  }

  /** The list always comes back exactly when the tied positions always stand in order. */
  lemma OnlyTheTieMatters(size: nat, order: seq<int>, finderIdx: S16, findNum: S16)
    requires IsTieSize(size) && IsPositionOrder(size, 8, order)
    ensures 7 in Words8(size) && 15 in Words8(size)
    ensures AlwaysComesBack(order, Indices8(size), Words8(size), finderIdx, findNum) <==>
            AlwaysStandsBefore(order, Indices8(size), Words8(size), finderIdx, findNum, 7, 15)
  {
    hide IndexOf, WordOf, AlwaysStandsBefore;
    PositionBytesAlike(size, 8, order);
    FifteenIsSeven(size);
    var i := PositionOccurs(size, 8, order, 7);
    var j := PositionOccurs(size, 8, order, 15);
    assert i < j;
    forall a, b | 0 <= a < b < |order| && IndexOf(size, 8, order[a]) == IndexOf(size, 8, order[b])
      ensures order[a] == 7 && order[b] == 15
    {
      OnlyOneTie(size, order[a], order[b]);
    }
  }

  /** What the sort by value makes of two words that both are, or both are not, computed by a kernel. */
  lemma StandsByValue<T>(s: seq<T>, indices: Indices<T>, data: Words<T>, findNum: S16, x: T, y: T)
    requires x in data && y in data && (UsesKernel(data[x]) <==> UsesKernel(data[y]))
    requires !UsesKernel(data[x]) ==> Value(data[x]) != Value(data[y])
    ensures AlwaysStandsBefore(s, indices, data, 1, findNum, x, y) <==>
            !UsesKernel(data[x]) && Value(data[x]) < Value(data[y])
  {
    hide UsesKernel, Value, Searched, ComesFirst;
  }

  /** The call for index 1 sorts by value: it keeps the tied cells in order, however often it searches, exactly for
      these sizes. */
  lemma ByValueIff(size: nat, order: seq<int>, findNum: S16)
    requires IsTieSize(size) && IsPositionOrder(size, 8, order)
    ensures AlwaysComesBack(order, Indices8(size), Words8(size), 1, findNum) <==> 4 <= size % 16 <= 9
  {
    hide *;
    OnlyTheTieMatters(size, order, 1, findNum);
    TiedWords(size);
    TiedPositions(size);
    StandsByValue(order, Indices8(size), Words8(size), findNum, 7, 15);
  }

  lemma TiedPositions(size: nat)
    requires IsTieSize(size)
    ensures 7 in Words8(size) && Words8(size)[7] == WordOf(size, 8, 7)
    ensures 15 in Words8(size) && Words8(size)[15] == WordOf(size, 8, 15)
    ensures 4 <= size % 16 <= 9 <==> 2 <= size % 16 <= 9 && size % 8 !in {2, 3}
  {
    hide WordOf;
    Eighths(size);
  }

  ghost predicate HasNone<T>(s: seq<T>, data: Words<T>, i: nat, findNum: S16) {
    forall k :: 0 <= k < |s| ==> s[k] in data && !(i <= Low(data[s[k]]) < findNum)
  }

  lemma FruitlessSearch<T>(s: seq<T>, indices: Indices<T>, data: Words<T>, i: nat, findNum: S16)
    requires i < findNum <= 256 && HasNone(s, data, i, findNum)
    ensures Searched(s, indices, data, -1, i, findNum) == Searched(Backwards(s), indices, data, -1, i + 1, findNum)
    ensures HasNone(Backwards(s), data, i + 1, findNum)
  {
    assert i % 256 == i;
    FirstIsFirst(s, indices, data, -1, i, |s|);
  }

  lemma SearchedOut<T>(s: seq<T>, indices: Indices<T>, data: Words<T>, findNum: S16)
    requires findNum >= 0
    ensures Searched(s, indices, data, -1, findNum, findNum) == s
  {
  }

  /** Searches for bytes that no word has turn the list round each time. */
  lemma {:induction false} FruitlessSearches<T>(s: seq<T>, indices: Indices<T>, data: Words<T>, i: nat, findNum: S16)
    requires i <= findNum <= 256 && HasNone(s, data, i, findNum)
    ensures Searched(s, indices, data, -1, i, findNum) == if (findNum - i) % 2 == 0 then s else Backwards(s)
    decreases findNum - i
  {
    hide *;
    if i == findNum {
      SearchedOut(s, indices, data, findNum);
    } else {
      FruitlessSearch(s, indices, data, i, findNum);
      FruitlessSearches(Backwards(s), indices, data, i + 1, findNum);
      BackwardsTwice(s);
    }
  }

  /** No word has a lower byte from 1 to 7, and only positions 16 apart have 0. */
  lemma SmallBytes(size: nat, p: int)
    requires IsTieSize(size) && 0 <= p < size - 1
    ensures !(1 <= Low(WordOf(size, 8, p)) < 8)
    ensures Low(WordOf(size, 8, p)) == 0 ==> 0 < p && (size - 3 - p) % 16 == 8
  {
    hide DataAt;
    if 0 < p && p + 2 < size {
      WordOfEight(size - 3 - p);
      SmallBits(size - 3 - p);
    }
  }

  lemma SmallBits(i: nat)
    ensures !(1 <= SevenBits(i) < 8) && (SevenBits(i) == 0 ==> i % 16 == 8)
  {
    Eighths(i);
  }

  /** The call for index -1 with eight searches keeps the tied cells in order unless the first of them is hit. */
  lemma EightSearchesKeep(size: nat, order: seq<int>)
    requires IsTieSize(size) && IsPositionOrder(size, 8, order) && size % 16 != 10
    ensures AlwaysComesBack(order, Indices8(size), Words8(size), -1, 8)
  {
    hide IndexOf, WordOf, AlwaysComesBack, Turned, FirstWanted, Searched, MovedTo, ComesFirst;
    OnlyTheTieMatters(size, order, -1, 8);
    var i := PositionOccurs(size, 8, order, 7);
    var j := PositionOccurs(size, 8, order, 15);
    TieIsAdjacent(size, order, i, j);
    MissesFifteen(size, order, j);
    SearchedEight(size, order, FirstWanted(order, Indices8(size), Words8(size), -1, 0));
    OrderIsDistinct(size, 8, order);
    TurnedTwiceKeeps(order, FirstWanted(order, Indices8(size), Words8(size), -1, 0), j);
  }

  /** A search that does not hit the second of two neighbours, and another turn, leave them in order. */
  lemma TurnedTwiceKeeps<T>(s: seq<T>, k: nat, j: nat)
    requires Distinct(s) && 0 < j < |s| && k <= |s| && k != j
    ensures ComesFirst(Backwards(Turned(s, k)), s[j - 1], s[j])
  {
    hide Turned, TurnedTo;
    var r := Turned(s, k);
    TurnedRearranges(s, k);
    BackwardsDistinct(r);
    TurnedKeepsPair(|s|, k, j);
    TurnedAt(s, k, j - 1);
    TurnedAt(s, k, j);
    IndexIs(Backwards(r), |s| - 1 - TurnedTo(|s|, k, j - 1));
    IndexIs(Backwards(r), |s| - 1 - TurnedTo(|s|, k, j));
  }

  lemma TieIsAdjacent(size: nat, order: seq<int>, i: nat, j: nat)
    requires IsTieSize(size) && IsPositionOrder(size, 8, order)
    requires i < |order| && j < |order| && order[i] == 7 && order[j] == 15
    ensures j == i + 1
  {
    hide IndexOf;
    FifteenIsSeven(size);
    assert i < j;
    if i + 1 < j {
      OnlyOneTie(size, 7, order[i + 1]);
    }
  }

  /** The first search does not hit position 15. */
  lemma MissesFifteen(size: nat, order: seq<int>, j: nat)
    requires IsTieSize(size) && IsPositionOrder(size, 8, order) && size % 16 != 10
    requires j < |order| && order[j] == 15
    ensures FirstWanted(order, Indices8(size), Words8(size), -1, 0) != j
  {
    hide IndexOf, WordOf;
    FirstIsWanted(order, Indices8(size), Words8(size), -1, 0);
    SmallBytes(size, 15);
    SixteenBack(size);
  }

  lemma SixteenBack(size: nat)
    requires size >= 18
    ensures (size - 18) % 16 == 8 <==> size % 16 == 10
  {
  }

  lemma SearchedEight(size: nat, order: seq<int>, k: nat)
    requires IsTieSize(size) && IsPositionOrder(size, 8, order)
    requires k == FirstWanted(order, Indices8(size), Words8(size), -1, 0)
    ensures Searched(order, Indices8(size), Words8(size), -1, 0, 8) == Backwards(Turned(order, k))
  {
    hide IndexOf, WordOf, Turned, FirstWanted;
    var r := Turned(order, k);
    OrderIsDistinct(size, 8, order);
    TurnedRearranges(order, k);
    forall j | 0 <= j < |r|
      ensures r[j] in Words8(size) && !(1 <= Low(Words8(size)[r[j]]) < 8)
    {
      assert r[j] in Elems(r);
      SmallBytes(size, r[j]);
    }
    FruitlessSearches(r, Indices8(size), Words8(size), 1, 8);
  }

  /** Neighbours are turned round by a search that does not hit the second of them. */
  lemma TurnedKeepsPair(n: nat, k: nat, j: nat)
    requires 0 < j < n && k <= n && k != j
    ensures TurnedTo(n, k, j) < TurnedTo(n, k, j - 1)
  {
  }

  /** So the run with seeds 8 and eight searches keeps its list, whatever the kernels return, exactly for these sizes,
      although two indices are the same for all of them. */
  lemma ProfileRunIff(size: nat)
    requires IsTieSize(size)
    ensures !AreDistinct(size, 8) && (BuiltComesBack(size, 8, 8) <==> 4 <= size % 16 <= 9)
  {
    hide IndexOf, AlwaysComesBack, IsPositionOrder;
    FifteenIsSeven(size);
    assert IndexOf(size, 8, 7) == IndexOf(size, 8, 15);
    var order := SomeOrder(size, 8);
    OnlyOrder(size, 8, order, 8);
    ByValueIff(size, order, 8);
    if 4 <= size % 16 <= 9 {
      EightSearchesKeep(size, order);
    }
  }

  // ----- a call of the run that loses its list

  /** When the tied words are plain and the first is the larger, the call for index 1 loses a built list, however often
      it searches and whatever the kernels return. */
  lemma PlainTieIsLost(cells: seq<Cell>, from: seq<int>, size: nat, records: Records, data: map<Cell, U16>,
                       findNum: S16, kernel: Kernel)
    requires IsTieSize(size) && IsBuiltOnRecord(cells, from, size, 8, records, data)
    requires size % 8 !in {2, 3} && !(4 <= size % 16 <= 9)
    ensures !ComesBack(cells, records, data, Call(1, findNum, kernel))
  {
    hide IndexOf, WordOf, Searched, UsesKernel, Value;
    FifteenIsSeven(size);
    TiedWords(size);
    var i := PositionOccurs(size, 8, from, 7);
    var j := PositionOccurs(size, 8, from, 15);
    assert i < j;
    assert !GoesBefore(cells, records, data, Call(1, findNum, kernel), cells[i], cells[j]);
  }

  /** The profile run over a block of 920 bytes loses its list with its first call. */
  method ProfileRunLoses(findNum: S16, kernel: Kernel)
    returns (list: Cell, retval: Crc.Word, ghost built: seq<Cell>, ghost from: seq<int>, ghost out: seq<Cell>)
    ensures IsBuilt(built, from, 44, 8)
    ensures IsList(list, out) && Elems(out) == Elems(built) && |out| == |built| && out != built
  {
    hide IsBuiltOnRecord, ComesBack, IsList, InfosApart, Infos, Elems, RecordsOf, DataOf;
    var res := new Results();
    list, built, from := InitList(920, 8);
    PlainTieIsLost(built, from, 44, RecordsOf(built), DataOf(built), findNum, kernel);
    assert forall d <- Infos(built) :: fresh(d) by { InfosAre(built); }
    list, retval, out := LoseBuilt(res, list, 1, findNum, kernel, 44, 8, built, from);
  }
}
