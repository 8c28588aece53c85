/** The bit-serial 16-bit CRC, and the polynomial division it performs.
    Machine words are lists of bits, least significant bit first. */
module Crc {
  import opened Arithmetic

  type Bits = seq<bool>

  type Byte = b: Bits | |b| == 8 witness seq(8, i => false)

  type Word = w: Bits | |w| == 16 witness seq(16, i => false)

  function Zeros(n: nat): (z: Bits)
    ensures |z| == n
  {
    seq(n, i => false)
  }

  /** The lowest bits of a number, least significant first. */
  function LowBits(n: nat, width: nat): (b: Bits)
    ensures |b| == width
  {
    seq(width, i requires 0 <= i < width => Bit(n, i))
  }

  /** The number a list of bits denotes. */
  function Denoted(bits: Bits): nat
    decreases |bits|
  {
    if bits == [] then 0 else (if bits[0] then 1 else 0) + 2 * Denoted(bits[1..])
  }

  /** They denote the number itself, as far as there are bits. */
  lemma {:induction false} LowBitsDenote(n: nat, width: nat)
    ensures Denoted(LowBits(n, width)) == n % Pow2(width)
  {
    hide Bit;
    var bits := LowBits(n, width);
    if width > 0 {
      forall i | 0 <= i < width
        ensures if i == 0 then bits[i] <==> n % 2 == 1 else bits[i] <==> Bit(n / 2, i - 1)
      {
        BitOfHalf(n, i);
      }
      assert bits[1..] == LowBits(n / 2, width - 1);
      LowBitsDenote(n / 2, width - 1);
      DivideByTwice(n, Pow2(width - 1));
    }
  }

  /** The word whose set bits are `ones`. */
  function Mask(ones: set<int>): Word {
    seq(16, i => i in ones)
  }

  function Xor(a: Bits, b: Bits): (c: Bits)
    requires |a| == |b|
    ensures |c| == |a|
  {
    seq(|a|, i requires 0 <= i < |a| => a[i] != b[i])
  }

  function ShiftRight(w: Bits): (v: Bits)
    requires w != []
    ensures |v| == |w|
  {
    w[1..] + [false]
  }

  /** One round of the loop: when the outgoing bit differs from the incoming one, flip bits 1 and 14 before
      the shift and set bit 15 after it. */
  function Step(crc: Word, bit: bool): Word {
    if crc[0] != bit then ShiftRight(Xor(crc, Mask({1, 14})))[15 := true] else ShiftRight(crc)[15 := false]
  }

  function Run(crc: Word, bits: Bits): Word
    decreases bits
  {
    if bits == [] then crc else Run(Step(crc, bits[0]), bits[1..])
  }

  lemma {:induction false} RunAppend(crc: Word, u: Bits, v: Bits)
    ensures Run(crc, u + v) == Run(Run(crc, u), v)
    decreases |u|
  {
    if u == [] {
      assert u + v == v;
    } else {
      assert (u + v)[1..] == u[1..] + v;
      RunAppend(Step(crc, u[0]), u[1..], v);
    }
  }

  method CrcU8(data: Byte, crc: Word) returns (r: Word)
    ensures r == Run(crc, data)
  {
    r := crc;
    var d: Bits := data;
    for i := 0 to 8
      invariant |d| == 8 && d[..8 - i] == data[i..]
      invariant Run(r, data[i..]) == Run(crc, data)
    {
      var x16 := d[0] != r[0];
      assert d[..8 - i][0] == data[i..][0] && data[i..][1..] == data[i + 1..];
      d := ShiftRight(d);
      var carry;
      if x16 {
        r := Xor(r, Mask({1, 14}));
        carry := true;
      } else {
        carry := false;
      }
      r := ShiftRight(r);
      r := r[15 := carry];
    }
    assert data[8..] == [];
  }

  method CrcU16(newval: Word, crc: Word) returns (r: Word)
    ensures r == Run(crc, newval)
  {
    r := CrcU8(newval[..8], crc);
    r := CrcU8(newval[8..], r);
    RunAppend(crc, newval[..8], newval[8..]);
    assert newval == newval[..8] + newval[8..];
  }

  method CrcU32(newval: Bits, crc: Word) returns (r: Word)
    requires |newval| == 32
    ensures r == Run(crc, newval)
  {
    r := CrcU16(newval[..16], crc);
    r := CrcU16(newval[16..], r);
    RunAppend(crc, newval[..16], newval[16..]);
    assert newval == newval[..16] + newval[16..];
  }

  // ----- the shape of one step

  predicate Tap(j: int) {
    j == 0 || j == 13 || j == 15
  }

  lemma StepAt(crc: Word, bit: bool)
    ensures forall j :: 0 <= j < 16 ==>
              Step(crc, bit)[j] == ((j < 15 && crc[j + 1]) != ((crc[0] != bit) && Tap(j)))
  {
    var m := Mask({1, 14});
    forall j | 0 <= j < 16
      ensures Step(crc, bit)[j] == ((j < 15 && crc[j + 1]) != ((crc[0] != bit) && Tap(j)))
    {
      if j < 15 {
        assert m[j + 1] <==> j == 0 || j == 13;
      }
    }
  }

  // ----- linearity

  lemma StepLinear(a: Word, b: Word, x: bool, y: bool)
    ensures Step(Xor(a, b), x != y) == Xor(Step(a, x), Step(b, y))
  {
    StepAt(a, x);
    StepAt(b, y);
    StepAt(Xor(a, b), x != y);
    var l, r := Step(Xor(a, b), x != y), Xor(Step(a, x), Step(b, y));
    assert forall j :: 0 <= j < 16 ==> l[j] == r[j];
  }

  /** The CRC is linear over exclusive or, in the message and the starting register together. */
  lemma {:induction false} RunLinear(a: Word, b: Word, u: Bits, v: Bits)
    requires |u| == |v|
    ensures Run(Xor(a, b), Xor(u, v)) == Xor(Run(a, u), Run(b, v))
    decreases |u|
  {
    if u != [] {
      StepLinear(a, b, u[0], v[0]);
      assert Xor(u, v)[1..] == Xor(u[1..], v[1..]);
      RunLinear(Step(a, u[0]), Step(b, v[0]), u[1..], v[1..]);
    }
  }

  // ----- bijectivity

  function Unstep(crc: Word, bit: bool): Word {
    seq(16, j requires 0 <= j < 16 => if j == 0 then crc[15] != bit else crc[j - 1] != (crc[15] && Tap(j - 1)))
  }

  lemma UnstepInverts(crc: Word, bit: bool)
    ensures Unstep(Step(crc, bit), bit) == crc && Step(Unstep(crc, bit), bit) == crc
  {
    StepAt(crc, bit);
    StepAt(Unstep(crc, bit), bit);
    var back, forth := Unstep(Step(crc, bit), bit), Step(Unstep(crc, bit), bit);
    assert forall j :: 0 <= j < 16 ==> back[j] == crc[j];
    assert forall j :: 0 <= j < 16 ==> forth[j] == crc[j];
  }

  /** Runs the register backwards over a message. */
  function Unrun(crc: Word, bits: Bits): Word {
    if bits == [] then crc else Unstep(Unrun(crc, bits[1..]), bits[0])
  }

  /** For a fixed message the map on registers is a bijection. */
  lemma {:induction false} RunBijective(crc: Word, bits: Bits)
    ensures Unrun(Run(crc, bits), bits) == crc && Run(Unrun(crc, bits), bits) == crc
    decreases |bits|
  {
    if bits != [] {
      UnstepInverts(crc, bits[0]);
      RunBijective(Step(crc, bits[0]), bits[1..]);
      UnstepInverts(Unrun(crc, bits[1..]), bits[0]);
      RunBijective(crc, bits[1..]);
    }
  }

  // ----- error bursts

  lemma {:induction false} RunZeros(n: nat)
    ensures Run(Zeros(16), Zeros(n)) == Zeros(16)
    decreases n
  {
    if n > 0 {
      StepAt(Zeros(16), false);
      assert Step(Zeros(16), false) == Zeros(16);
      assert Zeros(n)[1..] == Zeros(n - 1);
      RunZeros(n - 1);
    }
  }

  /** Feeding zeros never loses a non-zero register. */
  lemma ZerosKeepNonZero(crc: Word, n: nat)
    requires crc != Zeros(16)
    ensures Run(crc, Zeros(n)) != Zeros(16)
  {
    RunZeros(n);
    RunBijective(crc, Zeros(n));
    RunBijective(Zeros(16), Zeros(n));
  }

  /** A message of at most 16 bits, laid into the low end of a register. */
  function Loaded(bits: Bits): Word
    requires |bits| <= 16
  {
    bits + Zeros(16 - |bits|)
  }

  lemma LoadOne(crc: Word, bits: Bits)
    requires 0 < |bits| <= 16
    ensures Step(Xor(crc, Loaded(bits)), false) == Xor(Step(crc, bits[0]), Loaded(bits[1..]))
  {
    StepAt(Xor(crc, Loaded(bits)), false);
    StepAt(crc, bits[0]);
    var l, r := Step(Xor(crc, Loaded(bits)), false), Xor(Step(crc, bits[0]), Loaded(bits[1..]));
    forall j | 0 <= j < 16
      ensures l[j] == r[j]
    {
      if j < 15 {
        assert Loaded(bits)[j + 1] == Loaded(bits[1..])[j];
      }
    }
  }

  /** Up to 16 message bits act as if they had been in the register from the start. */
  lemma {:induction false} ShortMessagesLoad(crc: Word, bits: Bits)
    requires |bits| <= 16
    ensures Run(crc, bits) == Run(Xor(crc, Loaded(bits)), Zeros(|bits|))
    decreases |bits|
  {
    if bits == [] {
      assert Xor(crc, Loaded(bits)) == crc;
    } else {
      LoadOne(crc, bits);
      ShortMessagesLoad(Step(crc, bits[0]), bits[1..]);
      assert Zeros(|bits|)[1..] == Zeros(|bits| - 1);
    }
  }

  lemma XorSelf(a: Word)
    ensures Xor(a, a) == Zeros(16)
  {
  }

  /** A difference of at most 16 bits reaches the register. */
  lemma ShortDifferenceShows(start: Word, u: Bits, v: Bits)
    requires |u| == |v| <= 16 && u != v
    ensures Run(start, u) != Run(start, v)
  {
    var diff := Xor(u, v);
    var i :| 0 <= i < |u| && u[i] != v[i];
    assert Loaded(diff)[i];
    ZerosKeepNonZero(Loaded(diff), |diff|);
    ShortMessagesLoad(Zeros(16), diff);
    assert Xor(Zeros(16), Loaded(diff)) == Loaded(diff);
    RunLinear(start, start, u, v);
    XorSelf(start);
    XorSelf(Run(start, u));
  }

  /** Two messages of equal length that differ, but only inside a window of at most 16 consecutive bits,
      never have the same CRC. */
  lemma BurstsAreDetected(crc: Word, head: Bits, u: Bits, v: Bits, tail: Bits)
    requires |u| == |v| <= 16 && u != v
    ensures Run(crc, head + u + tail) != Run(crc, head + v + tail)
  {
    hide Run;
    var start := Run(crc, head);
    RunAppend(crc, head + u, tail);
    RunAppend(crc, head, u);
    RunAppend(crc, head + v, tail);
    RunAppend(crc, head, v);
    ShortDifferenceShows(start, u, v);
    RunBijective(Run(start, u), tail);
    RunBijective(Run(start, v), tail);
  }

  // ----- polynomial division

  /** x^16 + x^15 + x^2 + 1, highest power first. */
  const POLYNOMIAL: Bits :=
    [true, true, false, false, false, false, false, false, false, false, false, false, false, false, true, false, true]

  /** The leading quotient bit times the polynomial, in the place of the leading coefficients. */
  function Leading(bit: bool, n: nat): (product: Bits)
    requires n > 0
    ensures |product| == n + 16
    ensures forall i :: 0 <= i < n + 16 ==> product[i] == (bit && (i == 0 || i == 1 || i == 14 || i == 16))
  {
    if bit then POLYNOMIAL + Zeros(n - 1) else Zeros(n + 16)
  }

  /** The product of a quotient with the polynomial, highest power first. */
  function Times(q: Bits): (product: Bits)
    ensures |product| == |q| + 16
  {
    if q == [] then Zeros(16)
    else Xor(Leading(q[0], |q|), [false] + Times(q[1..]))
  }

  /** The message followed by sixteen zeros, with the starting register added to its leading bits.  Read
      highest power first this is  register * x^n + message * x^16. */
  function Dividend(crc: Word, bits: Bits): (d: Bits)
    ensures |d| == |bits| + 16
  {
    Xor(bits + Zeros(16), crc + Zeros(|bits|))
  }

  /** The bits the division shifts out: its quotient. */
  function Quotient(crc: Word, bits: Bits): (q: Bits)
    ensures |q| == |bits|
    decreases bits
  {
    if bits == [] then [] else [crc[0] != bits[0]] + Quotient(Step(crc, bits[0]), bits[1..])
  }

  lemma DividendStep(crc: Word, bits: Bits)
    requires bits != []
    ensures Dividend(crc, bits) ==
            Xor(Leading(crc[0] != bits[0], |bits|), [false] + Dividend(Step(crc, bits[0]), bits[1..]))
  {
    hide Leading, Step;
    StepAt(crc, bits[0]);
    var first := Leading(crc[0] != bits[0], |bits|);
    var rest := Dividend(Step(crc, bits[0]), bits[1..]);
    var l, r := Dividend(crc, bits), Xor(first, [false] + rest);
    forall i | 0 <= i < |l|
      ensures l[i] == r[i]
    {
      if 0 < i < 17 {
        assert rest[i - 1] == ((bits[1..] + Zeros(16))[i - 1] != (Step(crc, bits[0]) + Zeros(|bits| - 1))[i - 1]);
      }
    }
  }

  /** The register ends as the remainder of the dividend modulo the polynomial. */
  lemma {:induction false} CrcIsRemainder(crc: Word, bits: Bits)
    ensures Dividend(crc, bits) == Xor(Times(Quotient(crc, bits)), Zeros(|bits|) + Run(crc, bits))
    decreases |bits|
  {
    if bits == [] {
      assert Dividend(crc, bits) == crc;
      assert Xor(Zeros(16), Zeros(0) + crc) == crc;
    } else {
      CrcIsRemainder(Step(crc, bits[0]), bits[1..]);
      CrcRemainderStep(crc, bits);
    }
  }

  lemma QuotientCons(crc: Word, bits: Bits)
    requires bits != []
    ensures var q := Quotient(crc, bits);
            q != [] && q[0] == (crc[0] != bits[0]) && q[1..] == Quotient(Step(crc, bits[0]), bits[1..])
  {
  }

  lemma ZerosCons(n: nat, w: Word)
    requires n > 0
    ensures Zeros(n) + w == [false] + (Zeros(n - 1) + w)
  {
  }

  lemma TimesCons(q: Bits)
    requires q != []
    ensures Times(q) == Xor(Leading(q[0], |q|), [false] + Times(q[1..]))
  {
  }

  /** Adding the leading part of a product to both sides of a division. */
  lemma AddLeading(leading: Bits, d: Bits, d': Bits, t: Bits, t': Bits, z: Bits, z': Bits)
    requires |t'| == |z'| == |d'| && |leading| == |t'| + 1
    requires d' == Xor(t', z') && d == Xor(leading, [false] + d')
    requires t == Xor(leading, [false] + t') && z == [false] + z'
    ensures |t| == |z| && d == Xor(t, z)
  {
    forall i | 0 <= i < |d|
      ensures d[i] == Xor(t, z)[i]
    {
      if i > 0 {
        assert d'[i - 1] == (t'[i - 1] != z'[i - 1]);
      }
    }
  }

  lemma CrcRemainderStep(crc: Word, bits: Bits)
    requires bits != []
    requires var crc', rest := Step(crc, bits[0]), bits[1..];
             Dividend(crc', rest) == Xor(Times(Quotient(crc', rest)), Zeros(|rest|) + Run(crc', rest))
    ensures Dividend(crc, bits) == Xor(Times(Quotient(crc, bits)), Zeros(|bits|) + Run(crc, bits))
  {
    hide Step, Dividend, Times, Quotient, Zeros, Leading, Xor;
    var crc', rest := Step(crc, bits[0]), bits[1..];
    DividendStep(crc, bits);
    QuotientCons(crc, bits);
    TimesCons(Quotient(crc, bits));
    ZerosCons(|bits|, Run(crc', rest));
    AddLeading(Leading(crc[0] != bits[0], |bits|), Dividend(crc, bits), Dividend(crc', rest),
               Times(Quotient(crc, bits)), Times(Quotient(crc', rest)),
               Zeros(|bits|) + Run(crc, bits), Zeros(|rest|) + Run(crc', rest));
  }

  lemma ProductTail(q: Bits, r: Word)
    requires q != []
    ensures var l, m := Xor(Times(q), Zeros(|q|) + r), Xor(Times(q[1..]), Zeros(|q| - 1) + r);
            forall i :: 0 <= i < |m| ==> l[i + 1] == (Leading(q[0], |q|)[i + 1] != m[i])
  {
    hide Leading;
    var l, m := Xor(Times(q), Zeros(|q|) + r), Xor(Times(q[1..]), Zeros(|q| - 1) + r);
    forall i | 0 <= i < |m|
      ensures l[i + 1] == (Leading(q[0], |q|)[i + 1] != m[i])
    {
      assert (Zeros(|q|) + r)[i + 1] == (Zeros(|q| - 1) + r)[i];
    }
  }

  lemma ProductHead(q: Bits, r: Word)
    requires q != []
    ensures Xor(Times(q), Zeros(|q|) + r)[0] == q[0]
  {
    hide Leading;
  }

  /** Quotient and remainder are determined by the dividend. */
  lemma {:induction false} RemainderIsUnique(q: Bits, r: Word, q': Bits, r': Word)
    requires |q| == |q'|
    requires Xor(Times(q), Zeros(|q|) + r) == Xor(Times(q'), Zeros(|q'|) + r')
    ensures q == q' && r == r'
    decreases |q|
  {
    hide Leading;
    var l, l' := Xor(Times(q), Zeros(|q|) + r), Xor(Times(q'), Zeros(|q'|) + r');
    if q == [] {
      forall i | 0 <= i < 16
        ensures r[i] == r'[i]
      {
        assert l[i] == l'[i];
      }
    } else {
      ProductHead(q, r);
      ProductHead(q', r');
      var m, m' := Xor(Times(q[1..]), Zeros(|q| - 1) + r), Xor(Times(q'[1..]), Zeros(|q| - 1) + r');
      ProductTail(q, r);
      ProductTail(q', r');
      forall i | 0 <= i < |m|
        ensures m[i] == m'[i]
      {
        assert l[i + 1] == l'[i + 1];
      }
      RemainderIsUnique(q[1..], r, q'[1..], r');
      assert q == [q[0]] + q[1..] && q' == [q'[0]] + q'[1..];
    }
  }
}
