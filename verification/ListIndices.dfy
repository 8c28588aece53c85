/** The numbers the benchmark's list is filled with, and when its indices are all different. */
module ListIndices {
  import opened Arithmetic
  import opened ByteLogic
  import opened ListCells

  // ----- the numbers a list is filled with

  /** The exclusive or of two 16-bit patterns, byte by byte. */
  function Xor16(a: nat, b: nat): U16 {
    256 * Xor(a / 256 % 256, b / 256 % 256) + Xor(a % 256, b % 256)
  }

  lemma SixBits()
    ensures Pow2(6) == 64
  {
    assert Pow2(3) == 8 && Pow2(6) == 8 * Pow2(3);
  }

  /** A pseudo-random index below 0x4000: the counter mixed with the seed, and three counter bits or'ed into its
      upper byte. */
  function Mixed(i: nat, seed: S16): S16 {
    var pat := Xor16(i, seed % 0x10000);
    SixBits();
    256 * OrBits(pat / 256 % 64, (i + 1) % 8, 6) + pat % 256
  }

  /** The first fifth is numbered in order. */
  function IndexAt(size: nat, seed: S16, i: nat): S16
    requires i < 0x8000
  {
    if i < size / 5 then i else Mixed(i, seed)
  }

  /** The index of the cell at position `k` before the list is sorted: the ends are fixed. */
  function IndexOf(size: nat, seed: S16, k: nat): S16
    requires k + 1 < size < 0x8000
  {
    if k == 0 then 0 else if k + 2 == size then 0x7fff else IndexAt(size, seed, k)
  }

  /** The data word of the i-th insertion: a seven-bit value in both bytes. */
  function DataAt(i: nat, seed: S16): U16 {
    var datpat := Xor16(i, seed % 0x10000) % 16;
    257 * (8 * datpat + i % 8)
  }

  /** The data word of the cell at position `k` before the list is sorted: insertions go behind the head. */
  function WordOf(size: nat, seed: S16, k: nat): U16
    requires k + 1 < size
  {
    if k == 0 then 0x8080 else if k + 2 == size then 0xffff else DataAt(size - 3 - k, seed)
  }

  // ----- bit by bit

  lemma LowPart(n: nat, q: nat, r: nat, d: nat, j: nat, k: nat)
    requires n == q * d + r && r < d == Pow2(j)
    ensures Bit(r, k) <==> k < j && Bit(n, k)
    ensures Bit(q, k) <==> Bit(n, k + j)
  {
    hide Bit, Pow2;
    BitOfJoined(n, q, r, j, k);
    BitOfJoined(n, q, r, j, k + j);
    if k >= j {
      SmallHasNoBit(r, j, k);
    }
  }

  lemma Xor16At(i: nat, s: nat, k: nat)
    requires i < 0x10000 && s < 0x10000
    ensures Bit(Xor16(i, s), k) <==> k < 16 && Bit(i, k) != Bit(s, k)
  {
    hide Bit, Pow2, XorBits;
    ByteRange();
    PatternParts(i, s);
    var high, low := Xor(i / 256, s / 256), Xor(i % 256, s % 256);
    BitOfJoined(Xor16(i, s), high, low, 8, k);
    XorAt(i % 256, s % 256, 8, k);
    LowPart(i, i / 256, i % 256, 256, 8, k);
    LowPart(s, s / 256, s % 256, 256, 8, k);
    if k >= 8 {
      XorAt(i / 256, s / 256, 8, k - 8);
      LowPart(i, i / 256, i % 256, 256, 8, k - 8);
      LowPart(s, s / 256, s % 256, 256, 8, k - 8);
    }
  }

  /** Fourteen bits of the counter mixed with the seed, with the counter's next value or'ed in from bit 8 on. */
  lemma MixedBits(i: nat, seed: S16, k: nat)
    requires i < 0x10000
    ensures Bit(Mixed(i, seed), k) <==>
            k < 14 && (Bit(i, k) != Bit(seed % 0x10000, k) || (8 <= k < 11 && Bit(i + 1, k - 8)))
  {
    hide Bit, Pow2, Xor16, OrBits;
    var pat := Xor16(i, seed % 0x10000);
    ByteRange();
    SixBits();
    Xor16At(i, seed % 0x10000, k);
    BitOfJoined(Mixed(i, seed), OrBits(pat / 256 % 64, (i + 1) % 8, 6), pat % 256, 8, k);
    LowPart(pat, pat / 256, pat % 256, 256, 8, k);
    if k >= 8 {
      OrAt(pat / 256 % 64, (i + 1) % 8, 6, k - 8);
      LowPart(pat / 256, pat / 256 / 64, pat / 256 % 64, 64, 6, k - 8);
      LowPart(pat, pat / 256, pat % 256, 256, 8, k - 8);
      ThreeBits();
      LowPart(i + 1, (i + 1) / 8, (i + 1) % 8, 8, 3, k - 8);
    }
  }

  lemma ThreeBits()
    ensures Pow2(3) == 8 && Pow2(4) == 16
  {
  }

  /** Both bytes of a data word: the lowest three bits of the counter, then four of the counter mixed with the seed. */
  lemma DataBits(i: nat, seed: S16, k: nat)
    requires i < 0x10000 && k < 16
    ensures var j: nat := k % 8;
            Bit(DataAt(i, seed), k) <==>
            if j < 3 then Bit(i, j) else j < 7 && Bit(i, j - 3) != Bit(seed % 0x10000, j - 3)
  {
    hide Bit, Pow2, Xor16;
    var pat, j: nat := Xor16(i, seed % 0x10000), k % 8;
    var dat := 8 * (pat % 16) + i % 8;
    ByteRange();
    ThreeBits();
    BitOfJoined(DataAt(i, seed), dat, dat, 8, k);
    BitOfJoined(dat, pat % 16, i % 8, 3, j);
    LowPart(i, i / 8, i % 8, 8, 3, j);
    if j >= 3 {
      LowPart(pat, pat / 16, pat % 16, 16, 4, j - 3);
      Xor16At(i, seed % 0x10000, j - 3);
    }
  }

  lemma WordBytesAlike(size: nat, seed: S16, k: nat)
    requires k + 1 < size
    ensures Low(WordOf(size, seed, k)) == High(WordOf(size, seed, k))
  {
    hide DataAt;
    if 0 < k && k + 2 < size {
      DataBytesAlike(size - 3 - k, seed);
    }
  }

  lemma DataBytesAlike(i: nat, seed: S16)
    ensures Low(DataAt(i, seed)) == High(DataAt(i, seed)) && !Cached(DataAt(i, seed))
  {
    hide Xor16;
    RepeatedByte(8 * (Xor16(i, seed % 0x10000) % 16) + i % 8);
  }

  lemma RepeatedByte(v: nat)
    requires v < 128
    ensures Low(257 * v) == v == High(257 * v) && !Cached(257 * v)
  {
    assert 257 * v / 128 == 2 * v;
  }

  // ----- when the indices are all different

  predicate AreDistinct(size: nat, seed: S16)
    requires size < 0x8000
  {
    forall j, k :: 0 <= j < k && k + 1 < size ==> IndexOf(size, seed, j) != IndexOf(size, seed, k)
  }

  /** A mixed index with no bit set above its lower byte falls among the ordered ones, or on the head's. */
  predicate FallsLow(size: nat, seed: S16, i: nat) {
    seed / 256 % 64 == i / 256 && i % 8 == 7 && Xor(i % 256, seed % 256) < Max(1, size / 5)
  }

  predicate NoneFallsLow(size: nat, seed: S16) {
    forall i :: 1 <= i && size / 5 <= i && i + 2 < size ==> !FallsLow(size, seed, i)
  }

  lemma PatternParts(i: nat, s: nat)
    requires i < 0x10000 && s < 0x10000
    ensures Xor16(i, s) / 256 == Xor(i / 256, s / 256) && Xor16(i, s) % 256 == Xor(i % 256, s % 256)
  {
    hide Xor;
    assert i / 256 % 256 == i / 256 && s / 256 % 256 == s / 256;
  }

  lemma SeedBytes(seed: S16)
    ensures seed % 0x10000 / 256 % 64 == seed / 256 % 64 && seed % 0x10000 % 256 == seed % 256
  {
    assert seed % 0x10000 == seed || seed % 0x10000 == seed + 0x10000;
  }

  /** A counter below 512 leaves the lower six bits of the seed's upper byte clear exactly when it has those bits. */
  lemma UpperVanishes(a: Byte, b: Byte)
    requires a < 2
    ensures Xor(a, b) % 64 == 0 <==> b % 64 == a
  {
    hide XorBits;
    ByteRange();
    assert Pow2(8) == 2 * Pow2(7);
    XorStep(a, b, 8);
    XorZero(b / 2, 7);
  }

  lemma MixedParts(i: nat, seed: S16)
    requires i < 512
    ensures Mixed(i, seed) % 256 == Xor(i % 256, seed % 256) && 0 <= Mixed(i, seed) < 0x4000
    ensures Mixed(i, seed) < 256 <==> seed / 256 % 64 == i / 256 && i % 8 == 7
  {
    hide Xor, Xor16, OrBits, Pow2;
    var s := seed % 0x10000;
    PatternParts(i, s);
    UpperVanishes(i / 256, s / 256);
    SixBits();
    OrIsZero(Xor(i / 256, s / 256) % 64, (i + 1) % 8, 6);
    SeedBytes(seed);
  }

  lemma MixedAreApart(i: nat, j: nat, seed: S16)
    requires i < 512 && j < 512 && i % 256 != j % 256
    ensures Mixed(i, seed) != Mixed(j, seed)
  {
    hide Mixed, Xor;
    MixedParts(i, seed);
    MixedParts(j, seed);
    if Xor(i % 256, seed % 256) == Xor(j % 256, seed % 256) {
      XorIsInjective(i % 256, j % 256, seed % 256);
    }
  }

  /** Two even counters 256 apart, the first in an even block of 256, give the same index: the bits of the upper byte
      that tell them apart are set by the counter anyway. */
  lemma MixedRepeats(i: nat, seed: S16)
    requires i < 0x8000 && i % 2 == 0 && i / 256 % 2 == 0
    ensures Mixed(i + 256, seed) == Mixed(i, seed)
  {
    hide *;
    MixedIs(i, seed);
    MixedIs(i + 256, seed);
    BlockFurther(i);
    UpperRepeats(i / 256, seed % 0x10000 / 256, (i + 1) % 8);
  }

  lemma UpperRepeats(a: nat, b: Byte, c: nat)
    requires a < 255 && a % 2 == 0 && c % 2 == 1
    ensures OrBits(Xor(a, b) % 64, c, 6) == OrBits(Xor(a + 1, b) % 64, c, 6)
  {
    hide *;
    XorOfPair(a, b);
    LowerBits(Xor(a, b), Xor(a + 1, b));
    OrHidesBit(Xor(a, b) % 64, Xor(a + 1, b) % 64, c);
  }

  lemma LowerBits(x: nat, y: nat)
    requires x / 2 == y / 2
    ensures x % 64 / 2 == y % 64 / 2
  {
    HalfOfLower(x);
    HalfOfLower(y);
  }

  lemma HalfOfLower(x: nat)
    ensures x % 64 / 2 == x / 2 % 32
  {
    var q, r := x / 64, x % 64;
    assert x == 64 * q + r;
    assert x / 2 == 32 * q + r / 2;
    RemainderIs(q, 32, r / 2);
  }

  lemma MixedIs(i: nat, seed: S16)
    requires i < 0x10000
    ensures var s := seed % 0x10000;
            Mixed(i, seed) == 256 * OrBits(Xor(i / 256, s / 256) % 64, (i + 1) % 8, 6) + Xor(i % 256, s % 256)
  {
    hide Xor, Xor16, OrBits, Pow2;
    PatternParts(i, seed % 0x10000);
  }

  lemma BlockFurther(i: nat)
    requires i % 2 == 0
    ensures (i + 256) / 256 == i / 256 + 1 && (i + 256) % 256 == i % 256
    ensures (i + 256 + 1) % 8 == (i + 1) % 8 && (i + 1) % 8 % 2 == 1
  {
  }

  lemma XorOfPair(a: nat, b: Byte)
    requires a < 255 && a % 2 == 0
    ensures Xor(a, b) / 2 == Xor(a + 1, b) / 2
  {
    hide XorBits;
    XorHalves(a, b, 8);
    XorHalves(a + 1, b, 8);
  }

  lemma OrHidesBit(x: nat, y: nat, c: nat)
    requires x / 2 == y / 2 && c % 2 == 1
    ensures OrBits(x, c, 6) == OrBits(y, c, 6)
  {
    hide Pow2;
  }

  /** The exact condition: at most 321 cells, and no mixed index that falls low. */
  lemma DistinctIff(size: nat, seed: S16)
    requires size < 0x8000
    ensures AreDistinct(size, seed) <==> size <= 322 && NoneFallsLow(size, seed)
  {
    if size > 322 {
      LargeClashes(size, seed);
    } else if NoneFallsLow(size, seed) {
      forall j, k | 0 <= j < k && k + 1 < size
        ensures IndexOf(size, seed, j) != IndexOf(size, seed, k)
      {
        if size / 5 <= k && k + 2 < size {
          assert !FallsLow(size, seed, k);
        }
        PairDiffers(size, seed, j, k);
      }
    } else {
      var i :| 1 <= i && size / 5 <= i && i + 2 < size && FallsLow(size, seed, i);
      FallingClashes(size, seed, i);
    }
  }

  /** A position differs from those before it unless its index falls low. */
  lemma PairDiffers(size: nat, seed: S16, j: nat, k: nat)
    requires size <= 322 && j < k && k + 1 < size
    requires size / 5 <= k && k + 2 < size ==> !FallsLow(size, seed, k)
    ensures IndexOf(size, seed, j) != IndexOf(size, seed, k)
  {
    hide Mixed, Xor;
    if k + 2 == size {
      if 0 < j { MixedParts(j, seed); }
    } else if k >= size / 5 {
      MixedParts(k, seed);
      if j >= 1 && j >= size / 5 {
        LessThanBlockApart(size, j, k);
        MixedAreApart(j, k, seed);
      }
    }
  }

  lemma LessThanBlockApart(size: nat, j: nat, k: nat)
    requires size <= 322 && 1 <= j < k && size / 5 <= j && k + 2 < size
    ensures j % 256 != k % 256
  {
    assert k < j + 256;
    if k < 256 {
      assert j % 256 == j && k % 256 == k;
    }
  }

  lemma FallingClashes(size: nat, seed: S16, i: nat)
    requires size <= 322 && 1 <= i && size / 5 <= i && i + 2 < size && FallsLow(size, seed, i)
    ensures !AreDistinct(size, seed)
  {
    hide Mixed, Xor;
    MixedParts(i, seed);
    var low := Xor(i % 256, seed % 256);
    assert IndexOf(size, seed, i) == low == IndexOf(size, seed, low);
  }

  lemma LargeClashes(size: nat, seed: S16)
    requires 322 < size < 0x8000
    ensures !AreDistinct(size, seed)
  {
    hide Mixed;
    var i := EvenStart(size);
    MixedRepeats(i, seed);
    assert IndexOf(size, seed, i) == IndexOf(size, seed, i + 256);
  }

  /** The first even counter in an even block of 256 that is mixed; the one 256 further on is mixed as well. */
  lemma EvenStart(size: nat) returns (i: nat)
    requires 322 < size < 0x8000
    ensures size / 5 <= i && 0 < i && i + 256 + 2 < size && i % 2 == 0 && i / 256 % 2 == 0
  {
    var t := size / 5;
    var a, l := t / 256, t % 256;
    assert t == 256 * a + l && 5 * t <= size;
    if a % 2 == 1 {
      i := 256 * (a + 1);
    } else if l == 255 {
      i := 256 * (a + 2);
    } else {
      i := t + t % 2;
      assert i / 256 == a;
    }
  }

  /** With the seeds of the validation and performance runs the indices are all different up to 321 cells, and never
      beyond. */
  lemma ShippedSeedsDiffer(size: nat, seed: S16)
    requires size < 0x8000 && (seed == 0 || seed == 0x3415)
    ensures AreDistinct(size, seed) <==> size <= 322
  {
    hide XorBits, AreDistinct;
    DistinctIff(size, seed);
    forall i | 1 <= i && size / 5 <= i && i + 2 < size && size <= 322
      ensures !FallsLow(size, seed, i)
    {
      ByteRange();
      XorZero(i % 256, 8);
    }
  }

  lemma XorOfEight(i: nat)
    requires i < 256
    ensures Xor(i, 8) == if i / 8 % 2 == 0 then i + 8 else i - 8
  {
    hide XorBits;
    assert Pow2(4) == 16;
    XorZero(i / 16, 4);
    XorStep(i / 8, 1, 5);
    XorOfOneBit(i / 8);
    XorStep(i / 4, 2, 6);
    XorStep(i / 2, 4, 7);
    XorStep(i, 8, 8);
    Halves(i);
  }

  lemma XorOfOneBit(i: nat)
    ensures 2 * (i / 2) + (if i % 2 == 1 then 0 else 1) == if i % 2 == 0 then i + 1 else i - 1
  {
  }

  lemma Halves(i: nat)
    ensures i / 2 / 2 == i / 4 && i / 4 / 2 == i / 8 && i / 8 / 2 == i / 16
    ensures i == 8 * (i / 8) + 4 * (i / 4 % 2) + 2 * (i / 2 % 2) + i % 2
  {
  }

  /** With the seed of the profile run they are all different below 40, from 80 to 119, and so on: not from 40 to 79,
      where index 7 is given twice, nor in every second stretch of forty after that. */
  lemma ProfileSeedDistinctIff(size: nat)
    requires size < 0x8000
    ensures AreDistinct(size, 8) <==> size <= 322 && size / 40 % 2 == 0
  {
    hide Xor, AreDistinct, Max;
    DistinctIff(size, 8);
    if size <= 322 {
      if size / 40 % 2 == 0 {
        forall i | 1 <= i && size / 5 <= i && i + 2 < size
          ensures !FallsLow(size, 8, i)
        {
          if i % 8 == 7 && i < 256 {
            XorOfEight(i);
            StaysHigh(size, i);
          }
        }
      } else {
        var i := SomeFallsLow(size);
      }
    }
  }

  lemma SomeFallsLow(size: nat) returns (i: nat)
    requires size <= 322 && size / 40 % 2 == 1
    ensures 1 <= i && size / 5 <= i && i + 2 < size && FallsLow(size, 8, i)
  {
    hide Xor;
    var m := size / 80;
    i := 16 * m + 15;
    assert 80 * m + 40 <= size < 80 * m + 80 && i / 8 == 2 * m + 1;
    XorOfEight(i);
  }

  lemma StaysHigh(size: nat, i: nat)
    requires size / 40 % 2 == 0 && 1 <= i && size / 5 <= i && i % 8 == 7
    ensures (if i / 8 % 2 == 0 then i + 8 else i - 8) >= Max(1, size / 5)
  {
    if i / 8 % 2 == 1 {
      var q, m := i / 16, size / 80;
      assert i == 16 * q + 15;
      assert size / 40 == 2 * m;
      assert 80 * m <= size < 80 * m + 40;
      assert 16 * m <= size / 5 < 16 * m + 8;
    }
  }
}
