/** The scanner benchmark: filling the buffer, scanning it, corrupting it, scanning again and undoing the corruption. */
module StateBuffer {
  import opened Arithmetic
  import opened ByteLogic
  import Crc
  import opened StateScanner

  // ----- corruption

  function LowByte(seed: int): Byte {
    seed % 256
  }

  lemma LowByteIs(high: int, low: Byte)
    ensures LowByte(256 * high + low) == low
  {
  }

  /** Commas are left alone. */
  function Flip(b: Byte, x: Byte): Byte {
    if b == COMMA then b else Xor(b, x)
  }

  predicate IsTouched(i: int, n: nat, step: nat)
    requires step > 0
  {
    i < n && i % step == 0
  }

  function Corrupted(s: seq<Byte>, n: nat, x: Byte, step: nat): (r: seq<Byte>)
    requires n <= |s| && step > 0
    ensures |r| == |s|
  {
    seq(|s|, i requires 0 <= i < |s| => if IsTouched(i, n, step) then Flip(s[i], x) else s[i])
  }

  /** One byte survives both passes. */
  predicate Survives(b: Byte, x: Byte, y: Byte) {
    b == COMMA || (x == y && b != Xor(COMMA, x))
  }

  lemma FlipTwice(b: Byte, x: Byte, y: Byte)
    ensures Flip(Flip(b, x), y) == b <==> Survives(b, x, y)
  {
    ByteRange();
    XorTwice(b, x, y, 8);
    XorMoves(b, x, COMMA);
  }

  /** The second pass restores the buffer exactly when every byte it touches survives. */
  lemma RestoredIff(s: seq<Byte>, n: nat, x: Byte, y: Byte, step: nat)
    requires n <= |s| && step > 0
    ensures Corrupted(Corrupted(s, n, x, step), n, y, step) == s <==>
            forall i :: 0 <= i < |s| && IsTouched(i, n, step) ==> Survives(s[i], x, y)
  {
    var c := Corrupted(s, n, x, step);
    var r := Corrupted(c, n, y, step);
    assert forall i :: 0 <= i < |s| && IsTouched(i, n, step) ==> r[i] == Flip(Flip(s[i], x), y);
    forall i | 0 <= i < |s|
      ensures r[i] == s[i] <==> (IsTouched(i, n, step) ==> Survives(s[i], x, y))
    {
      FlipTwice(s[i], x, y);
    }
    if r == s {
      forall i | 0 <= i < |s| && IsTouched(i, n, step)
        ensures Survives(s[i], x, y)
      {
        assert r[i] == s[i];
      }
    }
  }

  /** With equal masks it is one byte value that is lost: the one the mask turns into a comma. A zero mask loses
      nothing. */
  lemma EqualMasks(s: seq<Byte>, n: nat, x: Byte, step: nat)
    requires n <= |s| && step > 0
    ensures x != 0 ==> (Corrupted(Corrupted(s, n, x, step), n, x, step) == s <==>
                        forall i :: 0 <= i < |s| && IsTouched(i, n, step) ==> s[i] != Xor(COMMA, x))
    ensures x == 0 ==> Corrupted(Corrupted(s, n, x, step), n, x, step) == s
  {
    RestoredIff(s, n, x, x, step);
    ByteRange();
    XorZero(COMMA, 8);
    XorTwice(COMMA, x, 0, 8);
    XorZero(Xor(COMMA, x), 8);
  }

  lemma NotBetween(p: nat, step: nat, i: nat)
    requires step > 0 && p % step == 0 && p < i < p + step
    ensures i % step != 0
  {
    var k := p / step;
    assert i == k * step + (i - p);
    RemainderIs(k, step, i - p);
  }

  method Corrupt(memblock: array<Byte>, blksize: nat, seed: int, step: nat)
    requires blksize <= memblock.Length && step > 0
    modifies memblock
    ensures memblock[..] == Corrupted(old(memblock[..]), blksize, LowByte(seed), step)
  {
    hide Xor;
    var x := LowByte(seed);
    ghost var s := memblock[..];
    var p := 0;
    while p < blksize
      invariant p % step == 0
      invariant forall i :: 0 <= i < |s| && i < p ==>
        memblock[i] == if IsTouched(i, blksize, step) then Flip(s[i], x) else s[i]
      invariant forall i :: p <= i < |s| ==> memblock[i] == s[i]
    {
      if memblock[p] != COMMA {
        memblock[p] := Xor(memblock[p], x);
      }
      forall i: int | p < i < p + step
        ensures i % step != 0
      {
        NotBetween(p, step, i);
      }
      NextMultiple(p, step);
      p := p + step;
    }
    assert forall i :: 0 <= i < |s| ==> memblock[..][i] == Corrupted(s, blksize, x, step)[i];
  }

  lemma NextMultiple(p: nat, step: nat)
    requires step > 0 && p % step == 0
    ensures (p + step) % step == 0
  {
    assert p + step == (p / step + 1) * step + 0;
    RemainderIs(p / step + 1, step, 0);
  }

  // ----- the benchmark

  /** The 32-bit counters of the first `n` states, final and transition counter by turns. */
  function CounterBits(finals: seq<nat>, track: seq<nat>, n: nat): Crc.Bits
    requires n <= |finals| && n <= |track|
  {
    if n == 0 then []
    else CounterBits(finals, track, n - 1) + (Crc.LowBits(finals[n - 1], 32) + Crc.LowBits(track[n - 1], 32))
  }

  /** The k-th state in order has its counters, lowest bits first, in the k-th 64 bits. */
  lemma {:induction false} CountersInOrder(finals: seq<nat>, track: seq<nat>, n: nat, k: nat)
    requires k < n <= STATES && |finals| == |track| == STATES
    ensures var bits, x := CounterBits(finals, track, n), IN_ORDER[k];
            && |bits| == 64 * n
            && Crc.Denoted(bits[64 * k..64 * k + 32]) == finals[Ord(x)] % Pow2(32)
            && Crc.Denoted(bits[64 * k + 32..64 * k + 64]) == track[Ord(x)] % Pow2(32)
  {
    hide Crc.LowBits, Pow2;
    CounterBitsAt(finals, track, n, k);
    OrdIsPosition(IN_ORDER[k]);
    Crc.LowBitsDenote(finals[k], 32);
    Crc.LowBitsDenote(track[k], 32);
  }

  lemma {:induction false} CounterBitsAt(finals: seq<nat>, track: seq<nat>, n: nat, k: nat)
    requires k < n <= |finals| && n <= |track|
    ensures var bits := CounterBits(finals, track, n);
            && |bits| == 64 * n
            && bits[64 * k..64 * k + 32] == Crc.LowBits(finals[k], 32)
            && bits[64 * k + 32..64 * k + 64] == Crc.LowBits(track[k], 32)
  {
    hide Crc.LowBits;
    var bits, front := CounterBits(finals, track, n), CounterBits(finals, track, n - 1);
    CounterBitsLength(finals, track, n - 1);
    var f, t := Crc.LowBits(finals[n - 1], 32), Crc.LowBits(track[n - 1], 32);
    assert bits == front + (f + t);
    if k < n - 1 {
      CounterBitsAt(finals, track, n - 1, k);
      assert bits[64 * k..64 * k + 32] == front[64 * k..64 * k + 32];
      assert bits[64 * k + 32..64 * k + 64] == front[64 * k + 32..64 * k + 64];
    }
  }

  lemma {:induction false} CounterBitsLength(finals: seq<nat>, track: seq<nat>, n: nat)
    requires n <= |finals| && n <= |track|
    ensures |CounterBits(finals, track, n)| == 64 * n
  {
    if n > 0 {
      CounterBitsLength(finals, track, n - 1);
    }
  }

  /** The checksum of all counters is one run of the register over them. */
  method FoldCounters(finals: array<nat>, track: array<nat>, crc: Crc.Word) returns (retval: Crc.Word)
    requires finals.Length == track.Length == STATES
    ensures retval == Crc.Run(crc, CounterBits(finals[..], track[..], STATES))
  {
    hide Crc.LowBits;
    retval := crc;
    for i := 0 to STATES
      invariant retval == Crc.Run(crc, CounterBits(finals[..], track[..], i))
    {
      ghost var seen := CounterBits(finals[..], track[..], i);
      ghost var f, t := Crc.LowBits(finals[i], 32), Crc.LowBits(track[i], 32);
      retval := Crc.CrcU32(Crc.LowBits(finals[i], 32), retval);
      retval := Crc.CrcU32(Crc.LowBits(track[i], 32), retval);
      Crc.RunAppend(Crc.Run(crc, seen), f, t);
      Crc.RunAppend(crc, seen, f + t);
    }
  }

  /** Scans, corrupts, scans again, undoes the corruption and folds the counters into the checksum; `z1` and `z2` are
      zeros that end the two scans. */
  method BenchState(blksize: nat, memblock: array<Byte>, seed1: int, seed2: int, step: nat, crc: Crc.Word,
                    ghost z1: nat, ghost z2: nat)
    returns (retval: Crc.Word, finals: array<nat>, track: array<nat>, ghost cuts1: seq<nat>,
             ghost states1: seq<State>, ghost cuts2: seq<nat>, ghost states2: seq<State>)
    requires blksize <= memblock.Length && step > 0
    requires IsTerminated(memblock[..], 0, z1)
    requires IsTerminated(Corrupted(memblock[..], blksize, LowByte(seed1), step), 0, z2)
    modifies memblock
    ensures memblock[..] == Corrupted(Corrupted(old(memblock[..]), blksize, LowByte(seed1), step), blksize,
                                      LowByte(seed2), step)
    ensures IsScan(old(memblock[..]), cuts1, states1)
    ensures IsScan(Corrupted(old(memblock[..]), blksize, LowByte(seed1), step), cuts2, states2)
    ensures finals.Length == track.Length == STATES && fresh(finals) && fresh(track)
    ensures forall x: State :: finals[Ord(x)] == Occurrences(states1, x) + Occurrences(states2, x)
    ensures forall x: State :: (track[Ord(x)] ==
      TotalCrossings(old(memblock[..]), cuts1, states1, x) +
      TotalCrossings(Corrupted(old(memblock[..]), blksize, LowByte(seed1), step), cuts2, states2, x))
    ensures retval == Crc.Run(crc, CounterBits(finals[..], track[..], STATES))
  {
    hide CounterBits, Crc.Run, Corrupted, IsTerminated, IsScan, AreCalls, CountedCalls, CountedTransitions,
         TotalCrossings, Occurrences;
    ghost var s := memblock[..];
    ghost var c := Corrupted(s, blksize, LowByte(seed1), step);
    finals := new nat[STATES](_ => 0);
    track := new nat[STATES](_ => 0);
    ghost var f0, t0 := finals[..], track[..];
    cuts1, states1 := Scan(memblock, finals, track, z1);
    ghost var f1, t1 := finals[..], track[..];
    Corrupt(memblock, blksize, seed1, step);
    cuts2, states2 := Scan(memblock, finals, track, z2);
    assert memblock[..] == c;
    Corrupt(memblock, blksize, seed2, step);
    ScanCalls(s, cuts1, states1);
    ScanCalls(c, cuts2, states2);
    BothCounted(f0, states1, f1, states2, finals[..]);
    BothTracked(t0, s, cuts1, states1, t1, c, cuts2, states2, track[..]);
    retval := FoldCounters(finals, track, crc);
  }

  lemma BothCounted(f0: seq<nat>, states1: seq<State>, f1: seq<nat>, states2: seq<State>, f2: seq<nat>)
    requires |f0| == STATES && (forall i :: 0 <= i < STATES ==> f0[i] == 0)
    requires CountedCalls(f0, states1, f1) && CountedCalls(f1, states2, f2)
    ensures |f2| == STATES
    ensures forall x: State :: f2[Ord(x)] == Occurrences(states1, x) + Occurrences(states2, x)
  {
  }

  lemma BothTracked(t0: seq<nat>, s: seq<Byte>, cuts1: seq<nat>, states1: seq<State>, t1: seq<nat>,
                    c: seq<Byte>, cuts2: seq<nat>, states2: seq<State>, t2: seq<nat>)
    requires |t0| == STATES && (forall i :: 0 <= i < STATES ==> t0[i] == 0)
    requires CountedTransitions(t0, s, cuts1, states1, t1) && CountedTransitions(t1, c, cuts2, states2, t2)
    ensures AreCalls(s, cuts1, states1) && AreCalls(c, cuts2, states2) && |t2| == STATES
    ensures forall x: State ::
      (t2[Ord(x)] == TotalCrossings(s, cuts1, states1, x) + TotalCrossings(c, cuts2, states2, x))
  {
  }

  lemma ScanCalls(s: seq<Byte>, cuts: seq<nat>, states: seq<State>)
    requires IsScan(s, cuts, states)
    ensures AreCalls(s, cuts, states)
  {
  }

  // ----- the generated buffer

  function IntPattern(row: int): seq<Byte> {
    if row == 0 then [53, 48, 49, 50] // 5012
    else if row == 1 then [49, 50, 51, 52] // 1234
    else if row == 2 then [45, 56, 55, 52] // -874
    else [43, 49, 50, 50] // +122
  }

  function FloatPattern(row: int): seq<Byte> {
    if row == 0 then [51, 53, 46, 53, 52, 52, 48, 48] // 35.54400
    else if row == 1 then [46, 49, 50, 51, 52, 53, 48, 48] // .1234500
    else if row == 2 then [45, 49, 49, 48, 46, 55, 48, 48] // -110.700
    else [43, 48, 46, 54, 52, 52, 48, 48] // +0.64400
  }

  function SciPattern(row: int): seq<Byte> {
    if row == 0 then [53, 46, 53, 48, 48, 101, 43, 51] // 5.500e+3
    else if row == 1 then [45, 46, 49, 50, 51, 101, 45, 50] // -.123e-2
    else if row == 2 then [45, 56, 55, 101, 43, 56, 51, 50] // -87e+832
    else [43, 48, 46, 54, 101, 45, 49, 50] // +0.6e-12
  }

  function ErrPattern(row: int): seq<Byte> {
    if row == 0 then [84, 48, 46, 51, 101, 45, 49, 70] // T0.3e-1F
    else if row == 1 then [45, 84, 46, 84, 43, 43, 84, 113] // -T.T++Tq
    else if row == 2 then [49, 84, 51, 46, 52, 101, 52, 122] // 1T3.4e4z
    else [51, 52, 46, 48, 101, 45, 84, 94] // 34.0e-T^
  }

  /** The word chosen for a seed. */
  function Pattern(seed: int): seq<Byte> {
    var kind, row := seed % 8, seed / 8 % 4;
    if kind <= 2 then IntPattern(row)
    else if kind <= 4 then FloatPattern(row)
    else if kind <= 6 then SciPattern(row)
    else ErrPattern(row)
  }

  lemma IntWords(row: nat)
    requires row < 4
    ensures IntPattern(row) == Ascii(["5012", "1234", "-874", "+122"][row])
  {
  }

  lemma FloatWords(row: nat)
    requires row < 4
    ensures FloatPattern(row) == Ascii(["35.54400", ".1234500", "-110.700", "+0.64400"][row])
  {
  }

  lemma SciWords(row: nat)
    requires row < 4
    ensures SciPattern(row) == Ascii(["5.500e+3", "-.123e-2", "-87e+832", "+0.6e-12"][row])
  {
  }

  lemma ErrWords(row: nat)
    requires row < 4
    ensures ErrPattern(row) == Ascii(["T0.3e-1F", "-T.T++Tq", "1T3.4e4z", "34.0e-T^"][row])
  {
  }

  /** The lowest three bits of the seed choose the kind of the word, the next two the word. */
  lemma PatternIs(high: int, row: nat, kind: nat)
    requires row < 4 && kind < 8
    ensures Pattern(32 * high + 8 * row + kind) ==
            Ascii(if kind <= 2 then ["5012", "1234", "-874", "+122"][row]
                  else if kind <= 4 then ["35.54400", ".1234500", "-110.700", "+0.64400"][row]
                  else if kind <= 6 then ["5.500e+3", "-.123e-2", "-87e+832", "+0.6e-12"][row]
                  else ["T0.3e-1F", "-T.T++Tq", "1T3.4e4z", "34.0e-T^"][row])
  {
    hide IntPattern, FloatPattern, SciPattern, ErrPattern, Ascii;
    var seed := 32 * high + 8 * row + kind;
    assert seed % 8 == kind && seed / 8 == 4 * high + row;
    IntWords(row);
    FloatWords(row);
    SciWords(row);
    ErrWords(row);
  }

  /** The first `n` words, each followed by a comma. */
  function Joined(seed: int, n: nat): seq<Byte> {
    if n == 0 then [] else Joined(seed, n - 1) + Pattern(seed + n) + [COMMA]
  }

  /** As many words as leave room for two zeros, and zeros to the end. */
  predicate IsGenerated(s: seq<Byte>, seed: int, size: nat, n: nat) {
    && |Joined(seed, n)| + (if size == 1 then 1 else 2) <= size == |s|
    && s == Joined(seed, n) + Zeros(size - |Joined(seed, n)|)
    && (size >= 3 ==> |Joined(seed, n + 1)| + 2 > size)
  }

  function Zeros(n: nat): seq<Byte> {
    seq(n, _ => 0)
  }

  /** Sixteen-bit increment. */
  function NextSeed(seed: int): int {
    if seed == 0x7fff then -0x8000 else seed + 1
  }

  /** Only the seed modulo 32 matters, so the wrap of the 16-bit seed does not show. */
  lemma PatternWraps(a: int, b: int)
    requires (a - b) % 0x1_0000 == 0
    ensures Pattern(a) == Pattern(b)
  {
    hide IntPattern, FloatPattern, SciPattern, ErrPattern;
    var k := (a - b) / 0x1_0000;
    assert a == b + 0x1_0000 * k;
    assert a / 8 == b / 8 + 0x2000 * k;
  }

  lemma PatternLength(seed: int)
    ensures 4 <= |Pattern(seed)| <= 8
  {
  }

  /** Writes a word and a comma. */
  method CopyWord(p: array<Byte>, total: nat, buf: seq<Byte>)
    requires total + |buf| + 1 <= p.Length
    modifies p
    ensures p[..total + |buf| + 1] == old(p[..total]) + buf + [COMMA]
    ensures p[total + |buf| + 1..] == old(p[total + |buf| + 1..])
  {
    for i := 0 to |buf|
      invariant p[..total] == old(p[..total])
      invariant forall j :: 0 <= j < i ==> p[total + j] == buf[j]
      invariant p[total + |buf| + 1..] == old(p[total + |buf| + 1..])
    {
      p[total + i] := buf[i];
    }
    p[total + |buf|] := COMMA;
  }

  method FillZeros(p: array<Byte>, from: nat, size: nat)
    requires from <= size <= p.Length
    modifies p
    ensures p[..size] == old(p[..from]) + Zeros(size - from)
    ensures p[size..] == old(p[size..])
  {
    var total := from;
    while total < size
      invariant from <= total <= size
      invariant p[..total] == old(p[..from]) + Zeros(total - from) && p[size..] == old(p[size..])
    {
      p[total] := 0;
      total := total + 1;
    }
  }

  method InitState(size: nat, seed0: int, p: array<Byte>) returns (ghost n: nat)
    requires 1 <= size <= p.Length && -0x8000 <= seed0 < 0x8000
    modifies p
    ensures IsGenerated(p[..size], seed0, size, n)
    ensures p[size..] == old(p[size..])
  {
    hide Pattern, Zeros;
    var seed, total, buf: seq<Byte>, next := seed0, 0, [], 0;
    n := 0;
    ghost var picked := 0;
    while total + next + 1 < size - 1
      invariant total == |Joined(seed0, n)| && total <= size && p[..total] == Joined(seed0, n)
      invariant n == 0 || total + 2 <= size
      invariant next == |buf|
      invariant if next == 0 then n == picked == 0 else picked == n + 1 && buf == Pattern(seed0 + picked)
      invariant -0x8000 <= seed < 0x8000 && (seed - (seed0 + picked)) % 0x1_0000 == 0
      invariant p[size..] == old(p[size..])
      decreases size - total, if next == 0 then 1 else 0
    {
      if next > 0 {
        CopyWord(p, total, buf);
        total := total + next + 1;
        n := n + 1;
      }
      seed := NextSeed(seed);
      picked := picked + 1;
      PatternWraps(seed, seed0 + picked);
      PatternLength(seed);
      buf := Pattern(seed);
      next := |buf|;
    }
    FillZeros(p, total, size);
  }

  // ----- why the shipped seeds restore the generated buffer

  /** Neither '9' nor '$', the two bytes the shipped masks turn into a comma, occurs in any word. */
  predicate IsHarmless(s: seq<Byte>) {
    forall i :: 0 <= i < |s| ==> s[i] != 57 && s[i] != 36
  }

  lemma ShortRowsAreHarmless(row: int)
    ensures IsHarmless(IntPattern(row))
  {
  }

  lemma FloatRowsAreHarmless(row: int)
    ensures IsHarmless(FloatPattern(row))
  {
  }

  lemma SciRowsAreHarmless(row: int)
    ensures IsHarmless(SciPattern(row))
  {
  }

  lemma ErrRowsAreHarmless(row: int)
    ensures IsHarmless(ErrPattern(row))
  {
  }

  lemma PatternIsHarmless(seed: int)
    ensures IsHarmless(Pattern(seed))
  {
    hide IntPattern, FloatPattern, SciPattern, ErrPattern, IsHarmless;
    var row := seed / 8 % 4;
    ShortRowsAreHarmless(row);
    FloatRowsAreHarmless(row);
    SciRowsAreHarmless(row);
    ErrRowsAreHarmless(row);
  }

  lemma {:induction false} JoinedIsHarmless(seed: int, n: nat)
    ensures IsHarmless(Joined(seed, n))
  {
    hide Pattern;
    if n > 0 {
      JoinedIsHarmless(seed, n - 1);
      PatternIsHarmless(seed + n);
    }
  }

  /** The masks of the shipped runs: seeds 0, 0x3415 and 8. */
  predicate IsShippedSeed(seed: int) {
    seed == 0 || seed == 0x3415 || seed == 8
  }

  lemma LostByte(seed: int)
    requires IsShippedSeed(seed) && seed != 0
    ensures LowByte(seed) != 0 && Xor(COMMA, LowByte(seed)) in {57, 36}
  {
    hide XorBits;
    if seed == 8 {
      XorStep(0, 0, 1);
      XorStep(0, 0, 2);
      XorStep(1, 0, 3);
      XorStep(2, 0, 4);
      XorStep(5, 1, 5);
      XorStep(11, 2, 6);
      XorStep(22, 4, 7);
      XorStep(44, 8, 8);
    } else {
      XorStep(0, 0, 1);
      XorStep(0, 0, 2);
      XorStep(1, 0, 3);
      XorStep(2, 1, 4);
      XorStep(5, 2, 5);
      XorStep(11, 5, 6);
      XorStep(22, 10, 7);
      XorStep(44, 21, 8);
    }
  }

  /** Every generated buffer, of every size and under every step, is restored by a run with a shipped seed. */
  lemma GeneratedIsRestored(s: seq<Byte>, seed: int, size: nat, n: nat, shipped: int, step: nat)
    requires IsGenerated(s, seed, size, n) && IsShippedSeed(shipped) && step > 0
    ensures Corrupted(Corrupted(s, size, LowByte(shipped), step), size, LowByte(shipped), step) == s
  {
    hide Xor;
    EqualMasks(s, size, LowByte(shipped), step);
    if shipped != 0 {
      LostByte(shipped);
      JoinedIsHarmless(seed, n);
      var joined := Joined(seed, n);
      forall i | 0 <= i < |s|
        ensures s[i] != 57 && s[i] != 36
      {
        assert i < |joined| ==> s[i] == joined[i];
      }
    }
  }

  /** The scan of the corrupted buffer still meets a zero: two zeros end every buffer of at least two bytes, and
      with steps of at least two one of them is not touched. */
  lemma GeneratedStaysTerminated(s: seq<Byte>, seed: int, size: nat, n: nat, x: Byte, step: nat) returns (z: nat)
    requires IsGenerated(s, seed, size, n) && size >= 2 && step >= 2
    ensures IsTerminated(Corrupted(s, size, x, step), 0, z)
  {
    z := if IsTouched(size - 1, size, step) then size - 2 else size - 1;
    if IsTouched(size - 1, size, step) && IsTouched(size - 2, size, step) {
      NotBetween(size - 2, step, size - 1);
    }
  }

  /** A single byte is corrupted unless the mask is zero, and then no zero is left to end the scan. */
  lemma OneByteBufferOverruns(s: seq<Byte>, seed: int, n: nat, x: Byte, step: nat)
    requires IsGenerated(s, seed, 1, n) && step > 0
    ensures (exists z :: IsTerminated(Corrupted(s, 1, x, step), 0, z)) <==> x == 0
  {
    ByteRange();
    XorZero(x, 8);
    assert s == [0];
    assert Corrupted(s, 1, x, step)[0] == Xor(0, x) == x;
    if x == 0 {
      assert IsTerminated(Corrupted(s, 1, x, step), 0, 0);
    }
  }

  // ----- how the generated words are scanned

  /** The state in which each word is scanned. The third scientific word, -87e+832, has no point and is invalid. */
  function FormOf(seed: int): State {
    var kind, row := seed % 8, seed / 8 % 4;
    if kind <= 2 then Int
    else if kind <= 4 then Float
    else if kind <= 6 && row != 2 then Scientific
    else Invalid
  }

  lemma IntRows(row: int)
    ensures Grammar(Int, IntPattern(row))
  {
  }

  lemma PointAt(sign: seq<Byte>, whole: seq<Byte>, fraction: seq<Byte>)
    requires (sign == [] || (|sign| == 1 && IsSign(sign[0]))) && AllDigits(whole) && AllDigits(fraction)
    ensures IsFloat(sign + whole + [DOT] + fraction)
  {
    var w, k := sign + whole + [DOT] + fraction, |sign| + |whole|;
    assert SignLength(w) == |sign| && w[|sign|..k] == whole && w[k + 1..] == fraction;
    assert IsFloatAt(w, k);
  }

  lemma UnsignedFloatRows(row: int)
    requires row == 0 || row == 1
    ensures Grammar(Float, FloatPattern(row))
  {
    hide IsFloat;
    if row == 0 {
      PointAt([], [51, 53], [53, 52, 52, 48, 48]);
      assert FloatPattern(row) == [] + [51, 53] + [DOT] + [53, 52, 52, 48, 48];
    } else if row == 1 {
      PointAt([], [], [49, 50, 51, 52, 53, 48, 48]);
      assert FloatPattern(row) == [] + [] + [DOT] + [49, 50, 51, 52, 53, 48, 48];
    }
  }

  lemma SignedFloatRows(row: int)
    requires row != 0 && row != 1
    ensures Grammar(Float, FloatPattern(row))
  {
    hide IsFloat;
    if row == 2 {
      PointAt([45], [49, 49, 48], [55, 48, 48]);
      assert FloatPattern(row) == [45] + [49, 49, 48] + [DOT] + [55, 48, 48];
    } else {
      PointAt([43], [48], [54, 52, 52, 48, 48]);
      assert FloatPattern(row) == [43] + [48] + [DOT] + [54, 52, 52, 48, 48];
    }
  }

  lemma ShortRowsArePlain(row: int)
    ensures IsPlain(IntPattern(row)) && IsPlain(FloatPattern(row))
  {
  }

  lemma LongRowsArePlain(row: int)
    ensures IsPlain(SciPattern(row))
  {
  }

  lemma ErrRowsArePlain(row: int)
    ensures IsPlain(ErrPattern(row))
  {
  }

  lemma RunOfNothing()
    ensures Run([]) == Start
  {
  }

  /** A float, an `e`, a sign and digits. */
  lemma RunOnParts(f: seq<Byte>, point: int, sign: Byte, digits: seq<Byte>)
    requires IsFloatAt(f, point) && IsSign(sign) && AllDigits(digits)
    ensures Run(f + [101, sign] + digits) == if digits == [] then Exponent else Scientific
  {
    hide Run;
    RunOnFloat(f);
    RunSnoc(f, 101);
    RunSnoc(f + [101], sign);
    assert f + [101] + [sign] == f + [101, sign];
    if digits == [] {
      assert f + [101, sign] + digits == f + [101, sign];
    } else {
      RunSnoc(f + [101, sign], digits[0]);
      RunOverDigits(f + [101, sign] + [digits[0]], digits[1..]);
      assert f + [101, sign] + [digits[0]] + digits[1..] == f + [101, sign] + digits;
    }
  }

  lemma SciRows(row: int)
    ensures Run(SciPattern(row)) == if row == 2 then Invalid else Scientific
  {
    hide Run, IsPlain, Grammar;
    var w := SciPattern(row);
    if row == 0 {
      RunOnParts([53, 46, 53, 48, 48], 1, 43, [51]);
      assert w == [53, 46, 53, 48, 48] + [101, 43] + [51];
    } else if row == 1 {
      RunOnParts([45, 46, 49, 50, 51], 1, 45, [50]);
      assert w == [45, 46, 49, 50, 51] + [101, 45] + [50];
    } else if row == 2 {
      RunOnInt(w[..3]);
      RunSnoc(w[..3], 101);
      assert w[..4] == w[..3] + [101];
      InvalidStays(w, 4);
    } else {
      RunOnParts([43, 48, 46, 54], 2, 45, [49, 50]);
      assert w == [43, 48, 46, 54] + [101, 45] + [49, 50];
    }
  }

  lemma ErrRows(row: int)
    ensures Run(ErrPattern(row)) == Invalid
  {
    hide Run, IsPlain, Grammar, HasForm;
    RunOfNothing();
    var w := ErrPattern(row);
    if row == 0 {
      RunSnoc([], 84);
      assert w[..1] == [] + [84];
      InvalidStays(w, 1);
    } else if row == 1 || row == 2 {
      RunSnoc([], w[0]);
      RunSnoc([] + [w[0]], 84);
      assert w[..2] == [] + [w[0]] + [84];
      InvalidStays(w, 2);
    } else {
      var f := [51, 52, 46, 48];
      RunOnParts(f, 2, 45, []);
      RunSnoc(f + [101, 45] + [], 84);
      assert w[..7] == f + [101, 45] + [] + [84];
      InvalidStays(w, 7);
    }
  }

  lemma PatternForm(seed: int)
    ensures Run(Pattern(seed)) == FormOf(seed) && IsPlain(Pattern(seed))
  {
    hide IntPattern, FloatPattern, SciPattern, ErrPattern, IsPlain, Run, Grammar;
    var row := seed / 8 % 4;
    IntRows(row);
    RunIffGrammar(Int, IntPattern(row));
    if row == 0 || row == 1 {
      UnsignedFloatRows(row);
    } else {
      SignedFloatRows(row);
    }
    RunIffGrammar(Float, FloatPattern(row));
    ShortRowsArePlain(row);
    LongRowsArePlain(row);
    ErrRowsArePlain(row);
    SciRows(row);
    ErrRows(row);
  }

  lemma {:induction false} JoinedPrefix(seed: int, i: nat, n: nat)
    requires i <= n
    ensures |Joined(seed, i)| <= |Joined(seed, n)| && Joined(seed, n)[..|Joined(seed, i)|] == Joined(seed, i)
  {
    if i < n {
      JoinedPrefix(seed, i, n - 1);
    }
  }

  lemma {:induction false} JoinedHasNoZero(seed: int, n: nat)
    ensures forall i :: 0 <= i < |Joined(seed, n)| ==> Joined(seed, n)[i] != 0
    ensures n > 0 ==> Joined(seed, n) != [] && Joined(seed, n)[|Joined(seed, n)| - 1] == COMMA
  {
    hide Pattern;
    if n > 0 {
      JoinedHasNoZero(seed, n - 1);
      PatternForm(seed + n);
    }
  }

  /** Where word `i` of the generated buffer lies. */
  lemma WordLies(s: seq<Byte>, seed: int, size: nat, n: nat, i: nat)
    requires IsGenerated(s, seed, size, n) && i < n
    ensures var off, w := |Joined(seed, i)|, Pattern(seed + i + 1);
            && off + |w| + 1 == |Joined(seed, i + 1)| <= |Joined(seed, n)| < |s|
            && s[off..off + |w|] == w && s[off + |w|] == COMMA
            && (if i > 0 then off > 0 && s[off - 1] == COMMA else off == 0)
    ensures forall j :: 0 <= j < |Joined(seed, n)| ==> s[j] != 0
  {
    hide Pattern, Joined;
    JoinedPrefix(seed, i + 1, n);
    JoinedHasNoZero(seed, n);
    JoinedHasNoZero(seed, i);
    JoinedNext(seed, i);
    var joined, more := Joined(seed, n), Joined(seed, i + 1);
    assert s[..|joined|] == joined;
    assert s[..|joined|][..|more|] == s[..|more|];
    PartsOf(s, Joined(seed, i), Pattern(seed + i + 1), COMMA);
    assert forall j :: 0 <= j < |joined| ==> s[j] == joined[j];
  }

  lemma JoinedNext(seed: int, i: nat)
    ensures Joined(seed, i + 1) == Joined(seed, i) + Pattern(seed + i + 1) + [COMMA]
    ensures Joined(seed, 0) == []
  {
  }

  lemma PartsOf(s: seq<Byte>, a: seq<Byte>, w: seq<Byte>, c: Byte)
    requires |a| + |w| + 1 <= |s| && s[..|a| + |w| + 1] == a + w + [c]
    ensures s[|a|..|a| + |w|] == w && s[|a| + |w|] == c && (a != [] ==> s[|a| - 1] == a[|a| - 1])
  {
    var t := s[..|a| + |w| + 1];
    assert s[|a|..|a| + |w|] == t[|a|..|a| + |w|];
    assert s[|a| + |w|] == t[|a| + |w|] && (a != [] ==> s[|a| - 1] == t[|a| - 1]);
  }

  /** Scanning the uncorrupted buffer, one call starts at every generated word and reports its form; when the form
      is valid the call ends with the word's comma. */
  lemma GeneratedWordIsScanned(s: seq<Byte>, seed: int, size: nat, n: nat, i: nat, cuts: seq<nat>, states: seq<State>)
    returns (k: nat)
    requires IsGenerated(s, seed, size, n) && i < n && IsScan(s, cuts, states)
    ensures k < |states| && cuts[k] == |Joined(seed, i)| && states[k] == FormOf(seed + i + 1)
    ensures states[k] != Invalid ==> cuts[k + 1] == |Joined(seed, i + 1)|
  {
    hide Pattern, Joined, IsGenerated, IsCall, FormOf, Run, IsPlain;
    WordLies(s, seed, size, n, i);
    var off, w := |Joined(seed, i)|, Pattern(seed + i + 1);
    var end := cuts[|states|];
    assert end >= |Joined(seed, n)|;
    k := 0;
    if i > 0 {
      k := CommaEndsACall(s, cuts, states, off - 1);
      k := k + 1;
    }
    assert k != |states|;
    assert IsCall(s, cuts[k], cuts[k + 1], states[k]);
    PatternForm(seed + i + 1);
    CallOnWord(s, off, cuts[k + 1], states[k], w);
  }

  /** A call at the start of a plain word that a comma follows reports the state the word leads to. */
  lemma CallOnWord(s: seq<Byte>, p: nat, e: nat, state: State, w: seq<Byte>)
    requires IsCall(s, p, e, state) && IsPlain(w) && p + |w| < |s|
    requires s[p..p + |w|] == w && s[p + |w|] == COMMA
    ensures state == Run(w) && (state != Invalid ==> e == p + |w| + 1)
  {
    hide Run, IsCall, IsPlain, Word;
    CallFacts(s, p, e, state);
    PlainRange(s, p, w);
    if state != Invalid {
      assert e == p + |w| + 1;
      WordBeforeComma(s, p, e);
    } else {
      assert e <= p + |w|;
      assert s[p..e] == w[..e - p];
      InvalidStays(w, e - p);
    }
  }

  lemma PlainRange(s: seq<Byte>, p: nat, w: seq<Byte>)
    requires IsPlain(w) && p + |w| <= |s| && s[p..p + |w|] == w
    ensures forall j :: p <= j < p + |w| ==> s[j] != COMMA && s[j] != 0
  {
    forall j | p <= j < p + |w|
      ensures s[j] != COMMA && s[j] != 0
    {
      assert w[j - p] == s[j];
    }
  }

  lemma WordBeforeComma(s: seq<Byte>, p: nat, e: nat)
    requires p < e <= |s| && s[e - 1] == COMMA
    ensures Word(s, p, e) == s[p..e - 1]
  {
  }
}
