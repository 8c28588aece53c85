/** The checksum of a benchmark call, as a function of the orders its list goes through. */
module ListChecksum {
  import opened Arithmetic
  import opened Crc
  import opened ListCells
  import opened ListOrders

  ghost function WordAt<T>(data: Words<T>, x: T): U16 {
    if x in data then data[x] else 0
  }

  /** What one search adds: on a miss bit 8 of the second data word of the reversed list, less one; on a hit four, and
      bit 9 of the data word found if that is odd. */
  ghost function SearchGain<T>(s: seq<T>, indices: Indices<T>, data: Words<T>, idx: S16, data16: U16): int
    requires |s| >= 2
  {
    var k := FirstWanted(s, indices, data, idx, data16);
    if k == |s| then MissBit(WordAt(data, Backwards(s)[1])) - 1 else 4 + HitBit(WordAt(data, s[k]))
  }

  function MissBit(word: U16): nat {
    word / 256 % 2
  }

  function HitBit(word: U16): nat {
    if word % 2 == 1 then word / 512 % 2 else 0
  }

  /** The word with these bits: the seventh to first in `high`, then bits 9 and 8, the ones below in `middle`, bit 0. */
  function WordOfBits(high: nat, nine: nat, eight: nat, middle: nat, zero: nat): nat {
    1024 * high + 512 * nine + 256 * eight + 2 * middle + zero
  }

  /** A hit adds 1 exactly when bits 0 and 9 of the word are set, a miss when bit 8 is. */
  lemma BitsAdded(high: nat, nine: nat, eight: nat, middle: nat, zero: nat)
    requires high < 64 && nine < 2 && eight < 2 && middle < 128 && zero < 2
    ensures var w := WordOfBits(high, nine, eight, middle, zero);
            w < 0x10000 && HitBit(w) == (if zero == 1 && nine == 1 then 1 else 0) && MissBit(w) == eight
  {
    var w := WordOfBits(high, nine, eight, middle, zero);
    RemainderIs(2 * high + nine, 512, 256 * eight + 2 * middle + zero);
    RemainderIs(high, 2, nine);
    RemainderIs(4 * high + 2 * nine + eight, 256, 2 * middle + zero);
    RemainderIs(2 * high + nine, 2, eight);
    RemainderIs(512 * high + 256 * nine + 128 * eight + middle, 2, zero);
  }

  /** Every word has such bits. */
  lemma WordHasBits(w: U16) returns (high: nat, nine: nat, eight: nat, middle: nat, zero: nat)
    ensures high < 64 && nine < 2 && eight < 2 && middle < 128 && zero < 2
    ensures w == WordOfBits(high, nine, eight, middle, zero)
  {
    high, nine, eight, middle, zero := w / 1024, w / 512 % 2, w / 256 % 2, w / 2 % 128, w % 2;
    Halves(w);
  }

  lemma Halves(w: nat)
    ensures w / 512 / 2 == w / 1024 && w / 256 / 2 == w / 512 && w / 2 / 128 == w / 256
  {
  }

  /** What the searches numbered `i` and up add. */
  ghost function SearchTotal<T>(s: seq<T>, indices: Indices<T>, data: Words<T>, idx: S16, i: nat, findNum: S16): int
    requires |s| >= 2
    decreases findNum - i
  {
    if i >= findNum then 0
    else
      var k := FirstWanted(s, indices, data, idx, i % 256);
      SearchGain(s, indices, data, idx, i % 256) +
      SearchTotal(Turned(s, k), indices, data, NextIdx(idx), i + 1, findNum)
  }

  /** The index that would be searched for next, and the data byte last searched for. */
  function IdxAfter(idx: S16, i: nat, findNum: S16): S16
    decreases findNum - i
  {
    if i >= findNum then idx else IdxAfter(NextIdx(idx), i + 1, findNum)
  }

  /** Each search looks for the index after the one before, until that wraps to a negative one, which stays. */
  lemma {:induction false} IdxAfterIs(idx: S16, i: nat, findNum: S16)
    requires i <= findNum
    ensures IdxAfter(idx, i, findNum) ==
            if idx < 0 then idx else if idx + (findNum - i) <= 0x7fff then idx + (findNum - i) else -0x8000
    decreases findNum - i
  {
    if i < findNum {
      IdxAfterIs(NextIdx(idx), i + 1, findNum);
    }
  }

  function ByteAfter(findNum: S16): U16 {
    if findNum <= 0 then 0 else (findNum - 1) % 256
  }

  /** With the second item removed: how many cells there are from the first one wanted on, or, when there is none, from
      the second. */
  ghost function CellsFrom<T>(s: seq<T>, indices: Indices<T>, data: Words<T>, idx: S16, data16: U16): nat
    requires |s| >= 3
  {
    var left := [s[0]] + s[2..];
    var k := FirstWanted(left, indices, data, idx, data16);
    if k < |left| then |left| - k else |left| - 1
  }

  /** The same word folded in `n` times. */
  function Folded(word: Word, n: nat, crc: Word): Word {
    if n == 0 then crc else Run(Folded(word, n - 1, crc), word)
  }

  function Copies(word: Word, n: nat): Bits {
    if n == 0 then [] else Copies(word, n - 1) + word
  }

  /** That is the register run over that many copies of the word. */
  lemma {:induction false} FoldedIsRun(word: Word, n: nat, crc: Word)
    ensures Folded(word, n, crc) == Run(crc, Copies(word, n))
  {
    if n > 0 {
      FoldedIsRun(word, n - 1, crc);
      RunAppend(crc, Copies(word, n - 1), word);
    }
  }
}
