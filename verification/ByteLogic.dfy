/** Bytes as numbers, with the bitwise operations the models need. */
module ByteLogic {
  import opened Arithmetic

  type Byte = b: int | 0 <= b < 256

  /** The exclusive or of the low `k` bits. */
  function XorBits(a: nat, b: nat, k: nat): (r: nat)
    ensures r < Pow2(k)
  {
    if k == 0 then 0 else 2 * XorBits(a / 2, b / 2, k - 1) + if a % 2 == b % 2 then 0 else 1
  }

  function Xor(a: Byte, b: Byte): Byte {
    assert Pow2(8) == 2 * Pow2(7) == 4 * Pow2(6) == 8 * Pow2(5) == 16 * Pow2(4) == 32 * Pow2(3) == 64 * Pow2(2);
    XorBits(a, b, 8)
  }

  lemma XorHalves(a: nat, b: nat, k: nat)
    requires k > 0
    ensures XorBits(a, b, k) / 2 == XorBits(a / 2, b / 2, k - 1)
    ensures XorBits(a, b, k) % 2 == if a % 2 == b % 2 then 0 else 1
  {
  }

  /** Applying two masks in turn gives the value back exactly when they are the same. */
  lemma {:induction false} XorTwice(a: nat, x: nat, y: nat, k: nat)
    requires a < Pow2(k) && x < Pow2(k) && y < Pow2(k)
    ensures XorBits(XorBits(a, x, k), y, k) == a <==> x == y
  {
    if k > 0 {
      hide XorBits;
      XorHalves(a, x, k);
      XorHalves(XorBits(a, x, k), y, k);
      XorTwice(a / 2, x / 2, y / 2, k - 1);
    }
  }

  lemma {:induction false} XorZero(a: nat, k: nat)
    requires a < Pow2(k)
    ensures XorBits(a, 0, k) == a == XorBits(0, a, k)
  {
    if k > 0 {
      XorZero(a / 2, k - 1);
    }
  }

  lemma ByteRange()
    ensures Pow2(8) == 256
  {
    assert Pow2(8) == 2 * Pow2(7) == 4 * Pow2(6) == 8 * Pow2(5) == 16 * Pow2(4) == 32 * Pow2(3) == 64 * Pow2(2);
  }

  lemma XorMoves(a: Byte, x: Byte, b: Byte)
    ensures Xor(a, x) == b <==> a == Xor(b, x)
  {
    ByteRange();
    XorTwice(a, x, x, 8);
    XorTwice(b, x, x, 8);
  }

  /** The inclusive or of the low `k` bits. */
  function OrBits(a: nat, b: nat, k: nat): (r: nat)
    ensures r < Pow2(k)
  {
    if k == 0 then 0 else 2 * OrBits(a / 2, b / 2, k - 1) + if a % 2 == 1 || b % 2 == 1 then 1 else 0
  }

  lemma {:induction false} OrIsZero(a: nat, b: nat, k: nat)
    requires a < Pow2(k) && b < Pow2(k)
    ensures OrBits(a, b, k) == 0 <==> a == 0 && b == 0
  {
    if k > 0 {
      OrIsZero(a / 2, b / 2, k - 1);
    }
  }

  lemma XorIsInjective(a: Byte, b: Byte, x: Byte)
    requires Xor(a, x) == Xor(b, x)
    ensures a == b
  {
    XorMoves(a, x, Xor(b, x));
    XorMoves(b, x, Xor(b, x));
  }

  /** Bit by bit. */
  lemma {:induction false} XorAt(a: nat, b: nat, n: nat, k: nat)
    ensures Bit(XorBits(a, b, n), k) <==> k < n && Bit(a, k) != Bit(b, k)
  {
    var r := XorBits(a, b, n);
    if n == 0 {
      SmallHasNoBit(r, 0, k);
    } else {
      hide Bit;
      BitOfHalf(a, k);
      BitOfHalf(b, k);
      BitOfHalf(r, k);
      XorHalves(a, b, n);
      if k > 0 {
        XorAt(a / 2, b / 2, n - 1, k - 1);
      }
    }
  }

  lemma OrHalves(a: nat, b: nat, k: nat)
    requires k > 0
    ensures OrBits(a, b, k) / 2 == OrBits(a / 2, b / 2, k - 1)
    ensures OrBits(a, b, k) % 2 == if a % 2 == 1 || b % 2 == 1 then 1 else 0
  {
  }

  lemma {:induction false} OrAt(a: nat, b: nat, n: nat, k: nat)
    ensures Bit(OrBits(a, b, n), k) <==> k < n && (Bit(a, k) || Bit(b, k))
  {
    var r := OrBits(a, b, n);
    if n == 0 {
      SmallHasNoBit(r, 0, k);
    } else {
      hide Bit;
      BitOfHalf(a, k);
      BitOfHalf(b, k);
      BitOfHalf(r, k);
      OrHalves(a, b, n);
      if k > 0 {
        OrAt(a / 2, b / 2, n - 1, k - 1);
      }
    }
  }

  lemma XorStep(a: nat, b: nat, k: nat)
    requires k > 0
    ensures XorBits(a, b, k) == 2 * XorBits(a / 2, b / 2, k - 1) + if a % 2 == b % 2 then 0 else 1
    ensures XorBits(a, b, 0) == XorBits(a / 2, b / 2, 0) == 0
  {
  }
}
