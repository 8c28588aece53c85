/** Shifts, products and remainders that several models share. */
module Arithmetic {
  function Abs(x: int): nat {
    if x < 0 then -x else x
  }

  function Min(x: int, y: int): int {
    if x <= y then x else y
  }

  function Max(x: int, y: int): int {
    if x < y then y else x
  }

  function Pow2(n: nat): (p: nat)
    ensures p >= 1
  {
    if n == 0 then 1 else 2 * Pow2(n - 1)
  }

  lemma {:induction false} Pow2Monotone(m: nat, n: nat)
    requires m <= n
    ensures Pow2(m) <= Pow2(n)
  {
    if m < n {
      Pow2Monotone(m, n - 1);
    }
  }

  function Shl(v: nat, k: nat): nat {
    if k == 0 then v else 2 * Shl(v, k - 1)
  }

  lemma {:induction false} ShlIsProduct(v: nat, k: nat)
    ensures Shl(v, k) == v * Shl(1, k)
    ensures v > 0 ==> Shl(v, k) > k
  {
    if k > 0 {
      ShlIsProduct(v, k - 1);
    }
  }

  lemma {:induction false} ShlIsPower(v: nat, k: nat)
    ensures Shl(v, k) == v * Pow2(k)
  {
    if k > 0 {
      ShlIsPower(v, k - 1);
      assert v * Pow2(k) == 2 * (v * Pow2(k - 1));
    }
  }

  lemma {:induction false} ShlMonotone(u: nat, v: nat, i: nat, k: nat)
    requires u <= v && i <= k
    ensures Shl(u, i) <= Shl(v, k)
    decreases i + k
  {
    if i > 0 {
      ShlMonotone(u, v, i - 1, k - 1);
    } else if k > 0 {
      ShlMonotone(u, v, i, k - 1);
    }
  }

  lemma {:induction false} ShlSum(v: nat, i: nat, k: nat)
    ensures Shl(Shl(v, i), k) == Shl(v, i + k)
  {
    if k > 0 {
      ShlSum(v, i, k - 1);
    }
  }

  /** Quotient and remainder of a division are determined. */
  lemma EuclidIsUnique(d: nat, q: int, r: int, q': int, r': int)
    requires d > 0 && q * d + r == q' * d + r' && 0 <= r < d && 0 <= r' < d
    ensures q == q' && r == r'
  {
    assert (q - q') * d == q * d - q' * d;
    MultipleIsLarge(q - q', d);
  }

  lemma MultipleIsLarge(x: int, d: nat)
    ensures x >= 1 ==> x * d >= d
    ensures x <= -1 ==> x * d <= -1 * d
  {
  }

  lemma NegatedProduct(x: int, y: int)
    ensures (-x) * y == -(x * y) == x * (-y)
  {
  }

  lemma Distributes(x: int, y: int, m: int)
    ensures (x - y) * m == x * m - y * m
  {
  }

  lemma RemainderIs(k: nat, d: nat, r: nat)
    requires r < d
    ensures (k * d + r) / d == k && (k * d + r) % d == r
  {
    var n := k * d + r;
    EuclidIsUnique(d, k, r, n / d, n % d);
  }

  lemma DivideByTwice(n: nat, p: nat)
    requires p > 0
    ensures n / (2 * p) == n / 2 / p && n % (2 * p) == 2 * (n / 2 % p) + n % 2
  {
    var q, r := n / 2 / p, n / 2 % p;
    TwiceProduct(q, p);
    IsQuotient(n / 2, p);
    RemainderIs(q, 2 * p, 2 * r + n % 2);
  }

  lemma TwiceProduct(q: nat, p: nat)
    ensures q * (2 * p) == 2 * (q * p)
  {
  }

  lemma IsQuotient(n: nat, p: nat)
    requires p > 0
    ensures n == n / p * p + n % p
  {
  }

  // ----- binary digits

  predicate Bit(n: nat, k: nat) {
    n / Pow2(k) % 2 == 1
  }

  lemma BitOfHalf(n: nat, k: nat)
    ensures if k == 0 then Bit(n, k) <==> n % 2 == 1 else Bit(n, k) <==> Bit(n / 2, k - 1)
  {
    if k > 0 {
      DivideByTwice(n, Pow2(k - 1));
    }
  }

  /** The digits of two numbers written one behind the other. */
  lemma {:induction false} BitOfJoined(n: nat, high: nat, low: nat, j: nat, k: nat)
    requires n == high * Pow2(j) + low && low < Pow2(j)
    ensures Bit(n, k) <==> if k < j then Bit(low, k) else Bit(high, k - j)
  {
    hide Bit;
    if j == 0 {
      assert n == high;
    } else {
      BitOfHalf(n, k);
      BitOfHalf(low, k);
      HalfOfJoined(n, high, low, Pow2(j - 1));
      if k > 0 {
        BitOfJoined(n / 2, high, low / 2, j - 1, k - 1);
      }
    }
  }

  lemma HalfOfJoined(n: nat, high: nat, low: nat, p: nat)
    requires n == high * (2 * p) + low && low < 2 * p
    ensures n / 2 == high * p + low / 2 && low / 2 < p && n % 2 == low % 2
  {
    TwiceProduct(high, p);
    HalfOfSum(high * p, low);
  }

  lemma HalfOfSum(x: nat, low: nat)
    ensures (2 * x + low) / 2 == x + low / 2 && (2 * x + low) % 2 == low % 2
  {
  }

  lemma SmallHasNoBit(n: nat, j: nat, k: nat)
    requires n < Pow2(j) && j <= k
    ensures !Bit(n, k)
  {
    Pow2Monotone(j, k);
    RemainderIs(0, Pow2(k), n);
  }
}
