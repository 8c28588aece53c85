/** The two integer dividers of the simulator: a non-restoring one and a radix-4 digit recurrence. */
module Divider {
  import opened Arithmetic
  import opened Collections

  datatype Width = Automatic | Fixed(n: int)

  datatype Error = ZeroDivisor | NegativeOperand | NonPositiveWidth

  datatype Result<T> = Ok(value: T) | Err(error: Error)

  /** One recorded iteration: the partial remainder, the quotient so far and the shifted divisor. */
  datatype Step = Step(a: int, q: nat, m: int)

  datatype Division = Division(width: int, quotient: int, remainder: int, normalizeShift: nat, iterCount: nat,
                               steps: seq<Step>)

  /** One recorded radix-4 iteration: the partial remainder, the quotient digit and the quotient so far. */
  datatype DigitStep = DigitStep(p: int, qDigit: int, q: int)

  datatype DigitDivision = DigitDivision(width: int, quotient: int, remainder: int, digits: seq<nat>,
                                         steps: seq<DigitStep>)

  // ----- shifts and bit lengths

  function BitLength(v: nat): nat {
    if v == 0 then 0 else 1 + BitLength(v / 2)
  }

  lemma {:induction false} BitLengthBounds(v: nat)
    ensures v < Shl(1, BitLength(v))
    ensures v > 0 ==> Shl(1, BitLength(v) - 1) <= v
  {
    if v > 1 {
      BitLengthBounds(v / 2);
    }
  }

  /** `bits` bits hold the number, and no fewer do. */
  predicate IsBitLength(v: nat, bits: nat) {
    v < Pow2(bits) && (bits == 0 || Pow2(bits - 1) <= v)
  }

  lemma {:induction false} BitLengthIff(v: nat, bits: nat)
    ensures IsBitLength(v, bits) <==> bits == BitLength(v)
  {
    if v > 0 && bits > 0 {
      BitLengthIff(v / 2, bits - 1);
      if bits > 1 {
        assert Pow2(bits - 1) == 2 * Pow2(bits - 2);
      }
    }
  }

  function BitWidth(v: nat): nat {
    Max(1, BitLength(v))
  }

  function LeadingZeros(v: nat, width: int): nat {
    if width <= 0 then 0 else if v == 0 then width else Max(0, width - BitLength(v))
  }

  /** The value with bit `k` set. */
  function SetBit(q: nat, k: nat): nat {
    ShlIsProduct(1, k);
    if q / Shl(1, k) % 2 == 1 then q else q + Shl(1, k)
  }

  lemma SetBitAdds(h: nat, k: nat)
    ensures SetBit(h * Shl(1, k + 1), k) == h * Shl(1, k + 1) + Shl(1, k) == (2 * h + 1) * Shl(1, k)
  {
    ShlIsProduct(1, k);
    var b := Shl(1, k);
    assert h * Shl(1, k + 1) == (2 * h) * b;
    QuotientOfProduct(2 * h, b);
    assert (2 * h + 1) * b == (2 * h) * b + b;
  }

  lemma QuotientOfProduct(h: nat, b: nat)
    requires b > 0
    ensures h * b / b == h
  {
    EuclidIsUnique(b, h, 0, h * b / b, h * b % b);
  }

  // ----- what a division is to return

  /** Truncation toward zero: the remainder is smaller than the divisor and takes the sign of the dividend. */
  predicate IsTruncated(dividend: int, divisor: int, quotient: int, remainder: int) {
    && quotient * divisor + remainder == dividend
    && Abs(remainder) < Abs(divisor)
    && (remainder == 0 || (remainder < 0 <==> dividend < 0))
  }

  lemma TruncatedIsUnique(dividend: int, divisor: int, q: int, r: int, q': int, r': int)
    requires IsTruncated(dividend, divisor, q, r) && IsTruncated(dividend, divisor, q', r')
    ensures q == q' && r == r'
  {
    var d := Abs(divisor);
    NegatedProduct(q, d);
    NegatedProduct(q', d);
    var x, x' := if divisor < 0 then -q else q, if divisor < 0 then -q' else q';
    assert x * d + r == x' * d + r';
    if dividend >= 0 {
      EuclidIsUnique(d, x, r, x', r');
    } else {
      NegatedProduct(x, d);
      NegatedProduct(x', d);
      EuclidIsUnique(d, -x, -r, -x', -r');
    }
  }

  /** The result of dividing the absolute values, with the signs put back. */
  function Signed(signedMode: bool, dividend: int, divisor: int, q: int, r: int): (int, int) {
    (if signedMode && (dividend < 0) != (divisor < 0) then -q else q, if signedMode && dividend < 0 then -r else r)
  }

  lemma SignsPutBack(signedMode: bool, dividend: int, divisor: int, q: nat, r: nat)
    requires signedMode || (dividend >= 0 && divisor >= 0)
    requires q * Abs(divisor) + r == Abs(dividend)
    ensures var (quotient, remainder) := Signed(signedMode, dividend, divisor, q, r);
            && quotient * divisor + remainder == dividend
            && Abs(quotient) == q && Abs(remainder) == r && (remainder == 0 || (remainder < 0 <==> dividend < 0))
            && (quotient == 0 || (quotient < 0 <==> (dividend < 0) != (divisor < 0)))
            && (IsTruncated(dividend, divisor, quotient, remainder) <==> r < Abs(divisor))
  {
    NegatedProduct(q, divisor);
  }

  // ----- argument checks

  function OperatingWidth(dividend: int, divisor: int, width: Width, signedMode: bool): int {
    match width
    case Fixed(n) => n
    case Automatic => Max(BitWidth(Abs(dividend)), BitWidth(Abs(divisor))) + if signedMode then 1 else 0
  }

  function Checked(dividend: int, divisor: int, width: Width, signedMode: bool): Result<int> {
    if divisor == 0 then Err(ZeroDivisor)
    else if !signedMode && (dividend < 0 || divisor < 0) then Err(NegativeOperand)
    else
      var n := OperatingWidth(dividend, divisor, width, signedMode);
      if n <= 0 then Err(NonPositiveWidth) else Ok(n)
  }

  /** One bit at least, and enough for both operands, but not one more. */
  predicate IsCommonWidth(a: nat, b: nat, bits: int) {
    bits >= 1 && a < Pow2(bits) && b < Pow2(bits) && (bits == 1 || Pow2(bits - 1) <= a || Pow2(bits - 1) <= b)
  }

  /** What the arguments are refused for. */
  lemma CheckedIff(dividend: int, divisor: int, width: Width, signedMode: bool)
    ensures var c := Checked(dividend, divisor, width, signedMode);
            && (c.Err? <==> divisor == 0 || (!signedMode && (dividend < 0 || divisor < 0)) ||
                            (width.Fixed? && width.n <= 0))
            && (c.Err? ==> c.error == if divisor == 0 then ZeroDivisor
                                      else if !signedMode && (dividend < 0 || divisor < 0) then NegativeOperand
                                      else NonPositiveWidth)
            && (c.Ok? ==> IsWidth(dividend, divisor, width, signedMode, c.value))
  {
    if width.Automatic? {
      CommonWidth(Abs(dividend), Abs(divisor));
    }
  }

  /** The width asked for, or the smallest for both operands and, in signed mode, the sign. */
  predicate IsWidth(dividend: int, divisor: int, width: Width, signedMode: bool, n: int) {
    n > 0 && match width
             case Fixed(w) => n == w
             case Automatic => IsCommonWidth(Abs(dividend), Abs(divisor), if signedMode then n - 1 else n)
  }

  lemma CommonWidth(a: nat, b: nat)
    ensures IsCommonWidth(a, b, Max(BitWidth(a), BitWidth(b)))
  {
    var l, m, w := BitLength(a), BitLength(b), Max(BitWidth(a), BitWidth(b));
    BitLengthIff(a, l);
    BitLengthIff(b, m);
    Pow2Monotone(l, w);
    Pow2Monotone(m, w);
  }

  // ----- the non-restoring divider

  /** The divisor is shifted by the difference of the operands' bit lengths, of which only `n` bits count. */
  ghost predicate IsShift(a: nat, b: nat, n: int, shift: int) {
    forall l: nat, m: nat :: IsBitLength(a, l) && IsBitLength(b, m) ==> shift == Max(0, Min(l, n) - Min(m, n))
  }

  lemma ShiftIs(dividend: int, divisor: int, n: int)
    requires n > 0
    ensures IsShift(Abs(dividend), Abs(divisor), n, NormalizeShift(dividend, divisor, n))
  {
    forall l: nat, m: nat | IsBitLength(Abs(dividend), l) && IsBitLength(Abs(divisor), m)
      ensures NormalizeShift(dividend, divisor, n) == Max(0, Min(l, n) - Min(m, n))
    {
      BitLengthIff(Abs(dividend), l);
      BitLengthIff(Abs(divisor), m);
    }
  }

  function NormalizeShift(dividend: int, divisor: int, n: int): nat {
    Max(0, LeadingZeros(Abs(divisor), n) - LeadingZeros(Abs(dividend), n))
  }

  /** The dividend fits under the divisor aligned one place beyond the first iteration. */
  predicate Fits(dividend: int, divisor: int, n: int) {
    Abs(dividend) < Shl(Abs(divisor), NormalizeShift(dividend, divisor, n) + 1)
  }

  /** A width that is chosen automatically, or holds both operands, is always wide enough. */
  lemma AmpleWidthFits(dividend: int, divisor: int, width: Width, signedMode: bool)
    requires Checked(dividend, divisor, width, signedMode).Ok?
    requires width.Fixed? ==> BitLength(Abs(dividend)) <= width.n && BitLength(Abs(divisor)) <= width.n
    ensures Fits(dividend, divisor, OperatingWidth(dividend, divisor, width, signedMode))
  {
    hide *;
    var n, d := Abs(dividend), Abs(divisor);
    ShiftSpansLengths(dividend, divisor, width, signedMode);
    var shift := NormalizeShift(dividend, divisor, OperatingWidth(dividend, divisor, width, signedMode));
    BitLengthBounds(n);
    AlignedExceeds(d, BitLength(d), shift + 1);
    ShlMonotone(1, 1, BitLength(n), BitLength(d) + shift);
    FitsMeans(dividend, divisor, OperatingWidth(dividend, divisor, width, signedMode));
  }

  lemma FitsMeans(dividend: int, divisor: int, n: int)
    ensures Fits(dividend, divisor, n) <==>
            Abs(dividend) < Shl(Abs(divisor), NormalizeShift(dividend, divisor, n) + 1)
  {
  }

  lemma ShiftSpansLengths(dividend: int, divisor: int, width: Width, signedMode: bool)
    requires Checked(dividend, divisor, width, signedMode).Ok?
    requires width.Fixed? ==> BitLength(Abs(dividend)) <= width.n && BitLength(Abs(divisor)) <= width.n
    ensures BitLength(Abs(divisor)) > 0 && Shl(1, BitLength(Abs(divisor)) - 1) <= Abs(divisor)
    ensures BitLength(Abs(dividend)) <= BitLength(Abs(divisor)) +
            NormalizeShift(dividend, divisor, OperatingWidth(dividend, divisor, width, signedMode))
  {
    hide Shl;
    BitLengthBounds(Abs(divisor));
  }

  lemma AlignedExceeds(d: nat, bits: nat, k: nat)
    requires bits > 0 && k > 0 && Shl(1, bits - 1) <= d
    ensures Shl(1, bits + k - 1) <= Shl(d, k)
  {
    ShlSum(1, bits - 1, k);
    ShlMonotone(Shl(1, bits - 1), d, k, k);
  }

  /** No fixed width serves every dividend. */
  lemma EveryWidthIsTooNarrowSometimes(divisor: int, n: int)
    requires divisor != 0 && n > 0
    ensures !Fits(Shl(Abs(divisor), n), divisor, n)
  {
    var dividend := Shl(Abs(divisor), n);
    BitLengthBounds(Abs(divisor));
    ShlMonotone(Abs(divisor), Abs(divisor), NormalizeShift(dividend, divisor, n) + 1, n);
  }

  /** Seven divided by one in a single bit: quotient 1, remainder 6. */
  lemma NarrowWidthCounterexample()
    ensures Checked(7, 1, Fixed(1), false) == Ok(1) && NormalizeShift(7, 1, 1) == 0 && !Fits(7, 1, 1)
  {
    assert BitLength(1) == 1 + BitLength(0) && BitLength(7) == 1 + BitLength(3);
    assert Shl(1, 1) == 2 * Shl(1, 0);
  }

  /** The registers before iteration `k - 1`: the quotient bits down to `k` are known, `rest` is what they leave,
      and `a` is `rest` or, one subtraction too far, negative. */
  predicate Registers(n: nat, m: nat, shift: nat, k: nat, a: int, q: nat, h: nat, rest: nat) {
    && k <= shift + 1 && q == h * Shl(1, k)
    && n == q * m + rest
    && (if a >= 0 then a == rest else a == rest - Shl(m, k))
    && (if n < Shl(m, shift + 1) then rest < Shl(m, k)
        else a >= 0 && q == Shl(1, shift + 1) - Shl(1, k))
  }

  lemma FirstRegisters(n: nat, m: nat, shift: nat)
    ensures Registers(n, m, shift, shift + 1, n, 0, 0, n)
  {
    assert 0 * Shl(1, shift + 1) == 0 && 0 * m == 0;
  }

  /** A negative remainder is followed by an addition, a non-negative one by a subtraction: both leave
      `rest - (m << k)`. */
  lemma NextRegisters(n: nat, m: nat, shift: nat, k: nat, a: int, q: nat, h: nat, rest: nat, next: int)
    requires m > 0 && Registers(n, m, shift, k + 1, a, q, h, rest)
    requires next == if a >= 0 then a - Shl(m, k) else a + Shl(m, k)
    ensures next == rest - Shl(m, k)
    ensures next >= 0 ==> Registers(n, m, shift, k, next, SetBit(q, k), 2 * h + 1, next)
    ensures next < 0 ==> Registers(n, m, shift, k, next, q, 2 * h, rest)
  {
    SetBitAdds(h, k);
    Doubled(h, Shl(1, k));
    BitTimes(q, m, k);
    if n >= Shl(m, shift + 1) {
      SaturatedRest(n, m, shift, k + 1, q, rest);
      ShlMonotone(m, m, 0, k);
    }
  }

  lemma Doubled(h: nat, b: nat)
    ensures h * (2 * b) == (2 * h) * b
  {
  }

  lemma BitTimes(q: nat, m: nat, k: nat)
    ensures (q + Shl(1, k)) * m == q * m + Shl(m, k)
  {
    ShlIsProduct(m, k);
  }

  lemma SaturatedRest(n: nat, m: nat, shift: nat, k: nat, q: int, rest: int)
    requires n == q * m + rest && n >= Shl(m, shift + 1) && q == Shl(1, shift + 1) - Shl(1, k)
    ensures rest >= Shl(m, k)
  {
    hide Shl;
    ShlIsProduct(m, shift + 1);
    ShlIsProduct(m, k);
    var x, y := Shl(1, shift + 1), Shl(1, k);
    Distributes(x, y, m);
    assert q * m == (x - y) * m;
  }

  /** Between iterations the partial remainder stays within the shifted divisor. */
  predicate StepsInRange(steps: seq<Step>, m: nat, shift: nat) {
    forall i :: 0 <= i < |steps| && i <= shift ==>
      steps[i].m == Shl(m, shift - i) && -steps[i].m <= steps[i].a < steps[i].m
  }

  /** Quotient bits and remainder of every iteration account for the dividend; a negative remainder is one shifted
      divisor short. */
  predicate StepsAddUp(steps: seq<Step>, n: nat, m: nat, shift: nat) {
    |steps| <= shift + 1 && forall i :: 0 <= i < |steps| ==> AddsUp(steps[i], n, m, Shl(m, shift - i))
  }

  predicate AddsUp(step: Step, n: nat, m: nat, mShift: nat) {
    step.m == mShift && n == step.q * m + if step.a >= 0 then step.a else step.a + mShift
  }

  /** What a division in `n` bits returns. */
  ghost predicate IsDivision(dividend: int, divisor: int, n: int, r: Division) {
    && r.width == n
    && r.normalizeShift == NormalizeShift(dividend, divisor, n)
    && IsShift(Abs(dividend), Abs(divisor), n, r.normalizeShift)
    && 1 <= r.iterCount <= n
    && r.iterCount == (if Abs(divisor) > Abs(dividend) then 1 else r.normalizeShift + 1)
    && r.quotient * divisor + r.remainder == dividend
    && (r.remainder == 0 || (r.remainder < 0 <==> dividend < 0))
    && (r.quotient == 0 || (r.quotient < 0 <==> (dividend < 0) != (divisor < 0)))
    && (IsTruncated(dividend, divisor, r.quotient, r.remainder) <==> Fits(dividend, divisor, n))
    && (!Fits(dividend, divisor, n) ==> Abs(r.quotient) == Shl(1, r.normalizeShift + 1) - 1)
    && (Fits(dividend, divisor, n) ==> StepsInRange(r.steps, Abs(divisor), r.normalizeShift))
    && StepsAddUp(r.steps, Abs(dividend), Abs(divisor), r.normalizeShift)
  }

  method NonRestoringDivision(dividend: int, divisor: int, width: Width, signedMode: bool)
    returns (r: Result<Division>)
    ensures r.Err? <==> divisor == 0 || (!signedMode && (dividend < 0 || divisor < 0)) || (width.Fixed? && width.n <= 0)
    ensures r.Err? ==> r.error == if divisor == 0 then ZeroDivisor
                                  else if !signedMode && (dividend < 0 || divisor < 0) then NegativeOperand
                                  else NonPositiveWidth
    ensures r.Ok? ==>
      && IsWidth(dividend, divisor, width, signedMode, r.value.width)
      && r.value.width == OperatingWidth(dividend, divisor, width, signedMode)
      && IsDivision(dividend, divisor, r.value.width, r.value)
  {
    hide IsWidth, Checked, NormalizeShift, OperatingWidth, Shl, StepsInRange, StepsAddUp, IsDivision;
    var checked := Checked(dividend, divisor, width, signedMode);
    CheckedIff(dividend, divisor, width, signedMode);
    if checked.Err? {
      return Err(checked.error);
    }
    CheckedIsWidth(dividend, divisor, width, signedMode);
    var n := checked.value;
    var dividendAbs, m := Abs(dividend), Abs(divisor);
    var shift := NormalizeShift(dividend, divisor, n);
    if m > dividendAbs {
      var (quotient, remainder) := Signed(signedMode, dividend, divisor, 0, dividendAbs);
      NothingToDivide(dividend, divisor, n, signedMode);
      return Ok(Division(n, quotient, remainder, shift, 1, []));
    }
    var q, a, steps := DivideLoop(dividendAbs, m, shift);
    var (quotient, remainder) := Signed(signedMode, dividend, divisor, q, a);
    DividedByLoop(dividend, divisor, n, signedMode, q, a, steps);
    return Ok(Division(n, quotient, remainder, shift, shift + 1, steps));
  }

  lemma CheckedIsWidth(dividend: int, divisor: int, width: Width, signedMode: bool)
    requires Checked(dividend, divisor, width, signedMode).Ok?
    ensures var n := Checked(dividend, divisor, width, signedMode).value;
            n == OperatingWidth(dividend, divisor, width, signedMode) > 0
  {
  }

  /** The divisor is the larger one: nothing is done. */
  lemma NothingToDivide(dividend: int, divisor: int, n: int, signedMode: bool)
    requires Abs(dividend) < Abs(divisor) && n > 0 && (signedMode || (dividend >= 0 && divisor >= 0))
    ensures var (quotient, remainder) := Signed(signedMode, dividend, divisor, 0, Abs(dividend));
            IsDivision(dividend, divisor, n,
                       Division(n, quotient, remainder, NormalizeShift(dividend, divisor, n), 1, []))
  {
    hide IsTruncated, IsShift, NormalizeShift, Signed;
    SignsPutBack(signedMode, dividend, divisor, 0, Abs(dividend));
    ShiftIs(dividend, divisor, n);
    ShlMonotone(Abs(divisor), Abs(divisor), 0, NormalizeShift(dividend, divisor, n) + 1);
  }

  lemma DividedByLoop(dividend: int, divisor: int, n: int, signedMode: bool, q: nat, a: nat, steps: seq<Step>)
    requires 0 < Abs(divisor) <= Abs(dividend) && n > 0 && (signedMode || (dividend >= 0 && divisor >= 0))
    requires var shift := NormalizeShift(dividend, divisor, n);
             && Abs(dividend) == q * Abs(divisor) + a
             && StepsAddUp(steps, Abs(dividend), Abs(divisor), shift)
             && if Abs(dividend) < Shl(Abs(divisor), shift + 1) then
                  a < Abs(divisor) && StepsInRange(steps, Abs(divisor), shift)
                else a >= Abs(divisor) && q == Shl(1, shift + 1) - 1
    ensures var (quotient, remainder) := Signed(signedMode, dividend, divisor, q, a);
            var shift := NormalizeShift(dividend, divisor, n);
            IsDivision(dividend, divisor, n, Division(n, quotient, remainder, shift, shift + 1, steps))
  {
    hide IsTruncated, IsShift, NormalizeShift, Signed, Shl, StepsInRange, StepsAddUp;
    SignsPutBack(signedMode, dividend, divisor, q, a);
    ShiftIs(dividend, divisor, n);
    ShiftIsBelowWidth(dividend, divisor, n);
    FitsMeans(dividend, divisor, n);
  }

  lemma ShiftIsBelowWidth(dividend: int, divisor: int, n: int)
    requires divisor != 0 && n > 0
    ensures NormalizeShift(dividend, divisor, n) < n
  {
  }

  /** The iterations and the final correction. */
  method DivideLoop(n: nat, m: nat, shift: nat) returns (q: nat, a: int, steps: seq<Step>)
    requires m > 0
    ensures n == q * m + a && a >= 0
    ensures |steps| == shift + 1 && StepsAddUp(steps, n, m, shift)
    ensures if n < Shl(m, shift + 1) then a < m && StepsInRange(steps, m, shift)
            else a >= m && q == Shl(1, shift + 1) - 1
  {
    hide Registers;
    q, a, steps := 0, n, [];
    ghost var h: nat, rest: nat := 0, n;
    FirstRegisters(n, m, shift);
    for i := 0 to shift + 1
      invariant Registers(n, m, shift, shift + 1 - i, a, q, h, rest)
      invariant |steps| == i && StepsAddUp(steps, n, m, shift)
      invariant (n < Shl(m, shift + 1) ==> StepsInRange(steps, m, shift))
    {
      var k := shift - i;
      var mShift := Shl(m, k);
      var next := if a >= 0 then a - mShift else a + mShift;
      NextRegisters(n, m, shift, k, a, q, h, rest, next);
      a := next;
      if a >= 0 {
        q := SetBit(q, k);
        h, rest := 2 * h + 1, a;
      } else {
        h := 2 * h;
      }
      StepInRange(n, m, shift, k, a, q, h, rest);
      StepAddsUp(n, m, shift, k, a, q, h, rest);
      steps := steps + [Step(a, q, mShift)];
    }
    LastRegisters(n, m, shift, a, q, h, rest);
    if a < 0 {
      a := a + m;
    }
  }

  lemma StepInRange(n: nat, m: nat, shift: nat, k: nat, a: int, q: nat, h: nat, rest: nat)
    requires Registers(n, m, shift, k, a, q, h, rest)
    ensures n < Shl(m, shift + 1) ==> 0 <= a + Shl(m, k) && a < Shl(m, k)
  {
  }

  lemma StepAddsUp(n: nat, m: nat, shift: nat, k: nat, a: int, q: nat, h: nat, rest: nat)
    requires Registers(n, m, shift, k, a, q, h, rest)
    ensures AddsUp(Step(a, q, Shl(m, k)), n, m, Shl(m, k))
  {
  }

  lemma LastRegisters(n: nat, m: nat, shift: nat, a: int, q: nat, h: nat, rest: nat)
    requires m > 0 && Registers(n, m, shift, 0, a, q, h, rest)
    ensures n == q * m + rest
    ensures if n < Shl(m, shift + 1) then rest < m && rest == if a < 0 then a + m else a
            else rest == a >= m && q == Shl(1, shift + 1) - 1
  {
    if n >= Shl(m, shift + 1) {
      SaturatedRest(n, m, shift, 0, q, rest);
    }
  }

  // ----- the radix-4 divider

  /** The number a list of base-4 digits denotes, most significant digit first. */
  function Base4(digits: seq<nat>): nat {
    if digits == [] then 0 else 4 * Base4(digits[..|digits| - 1]) + digits[|digits| - 1]
  }

  predicate AreDigits(digits: seq<nat>) {
    forall i :: 0 <= i < |digits| ==> digits[i] < 4
  }

  lemma {:induction false} ReversedKeeps(s: seq<nat>)
    requires AreDigits(s)
    ensures |Reversed(s)| == |s| && AreDigits(Reversed(s))
  {
    if s != [] {
      ReversedKeeps(s[1..]);
    }
  }

  function Pow4(k: nat): nat {
    if k == 0 then 1 else 4 * Pow4(k - 1)
  }

  lemma {:induction false} Base4Cons(d: nat, digits: seq<nat>)
    ensures Base4([d] + digits) == d * Pow4(|digits|) + Base4(digits)
  {
    var all := [d] + digits;
    if digits == [] {
      assert all[..0] == [] && Base4([]) == 0;
    } else {
      assert all[..|all| - 1] == [d] + digits[..|digits| - 1];
      Base4Cons(d, digits[..|digits| - 1]);
      assert 4 * (d * Pow4(|digits| - 1)) == d * Pow4(|digits|);
    }
  }

  /** What the digits peeled off so far and the rest of the number still denote. */
  function Denoted(tmp: nat, digits: seq<nat>): nat {
    tmp * Pow4(|digits|) + Base4(Reversed(digits))
  }

  lemma DigitPeeled(tmp: nat, digits: seq<nat>)
    ensures Denoted(tmp / 4, digits + [tmp % 4]) == Denoted(tmp, digits)
  {
    var digit: nat := tmp % 4;
    ReversedSnoc(digits, digit);
    ReversedLength(digits);
    Base4Cons(digit, Reversed(digits));
    Split(tmp, Pow4(|digits|));
    var k := |digits + [digit]|;
    assert Pow4(k) == 4 * Pow4(k - 1) && k - 1 == |digits|;
    assert Base4(Reversed(digits + [digit])) == digit * Pow4(|digits|) + Base4(Reversed(digits));
  }

  lemma {:induction false} ReversedLength(s: seq<nat>)
    ensures |Reversed(s)| == |s|
  {
    if s != [] {
      ReversedLength(s[1..]);
    }
  }

  /** The base-4 digits of a number, peeled off from the low end and reversed. */
  method DigitsOf(n: nat) returns (digits: seq<nat>)
    ensures AreDigits(digits) && Base4(digits) == n
    ensures |digits| == Max(1, (BitLength(n) + 1) / 2)
  {
    hide Denoted, Base4;
    if n == 0 {
      digits := [0];
      ZeroDigit();
      return;
    }
    var tmp := n;
    digits := [];
    Undigested(n);
    while tmp > 0
      invariant AreDigits(digits) && n == Denoted(tmp, digits)
      invariant tmp > 0 ==> BitLength(n) == BitLength(tmp) + 2 * |digits|
      invariant tmp == 0 ==> |digits| == (BitLength(n) + 1) / 2
    {
      DigitPeeled(tmp, digits);
      TwoBitsFewer(tmp);
      digits := digits + [tmp % 4];
      tmp := tmp / 4;
    }
    Digested(digits);
    ReversedKeeps(digits);
    digits := Reversed(digits);
  }

  lemma ZeroDigit()
    ensures Base4([0]) == 0
  {
    assert Base4([0]) == 4 * Base4([0][..0]);
  }

  lemma Undigested(n: nat)
    ensures Denoted(n, []) == n
  {
  }

  lemma Digested(digits: seq<nat>)
    ensures Denoted(0, digits) == Base4(Reversed(digits))
  {
  }

  lemma Split(tmp: nat, p: nat)
    ensures tmp * p == tmp / 4 * (4 * p) + tmp % 4 * p
  {
    assert tmp == 4 * (tmp / 4) + tmp % 4;
    assert (4 * (tmp / 4) + tmp % 4) * p == 4 * (tmp / 4) * p + tmp % 4 * p;
  }

  lemma TwoBitsFewer(tmp: nat)
    requires tmp > 0
    ensures BitLength(tmp) == if tmp == 1 then 1 else BitLength(tmp / 4) + 2
  {
    assert tmp / 2 / 2 == tmp / 4;
  }

  /** Every digit is the exact quotient digit, so the clamp to 3 never takes effect, every partial remainder is below
      the divisor, and the digits make up the quotient. */
  predicate DigitsExact(steps: seq<DigitStep>, digits: seq<nat>, d: nat)
    requires d > 0 && |steps| <= |digits|
  {
    forall i :: 0 <= i < |steps| ==> IsExact(steps[i], 4 * Before(steps, i).p + digits[i], Before(steps, i).q, d)
  }

  predicate IsExact(step: DigitStep, rem: int, q: int, d: nat)
    requires d > 0
  {
    step.qDigit == rem / d && 0 <= step.qDigit <= 3 && step.p == rem % d && step.q == 4 * q + step.qDigit
  }

  /** Partial remainder and quotient before iteration `i`. */
  function Before(steps: seq<DigitStep>, i: nat): DigitStep
    requires i <= |steps|
  {
    if i == 0 then DigitStep(0, 0, 0) else steps[i - 1]
  }

  method SrtRadix4Division(dividend: int, divisor: int, width: Width, signedMode: bool)
    returns (r: Result<DigitDivision>)
    ensures r.Err? <==> divisor == 0 || (!signedMode && (dividend < 0 || divisor < 0)) || (width.Fixed? && width.n <= 0)
    ensures r.Err? ==> r.error == if divisor == 0 then ZeroDivisor
                                  else if !signedMode && (dividend < 0 || divisor < 0) then NegativeOperand
                                  else NonPositiveWidth
    ensures r.Ok? ==>
      && IsWidth(dividend, divisor, width, signedMode, r.value.width)
      && IsTruncated(dividend, divisor, r.value.quotient, r.value.remainder)
      && |r.value.steps| == |r.value.digits| == Max(1, (BitLength(Abs(dividend)) + 1) / 2)
      && Base4(r.value.digits) == Abs(dividend)
      && DigitsExact(r.value.steps, r.value.digits, Abs(divisor))
  {
    var checked := Checked(dividend, divisor, width, signedMode);
    CheckedIff(dividend, divisor, width, signedMode);
    if checked.Err? {
      return Err(checked.error);
    }
    var d := Abs(divisor);
    var digits := DigitsOf(Abs(dividend));
    var q, rem, steps := DigitLoop(digits, d);
    var (quotient, remainder) := Signed(signedMode, dividend, divisor, q, rem);
    SignsPutBack(signedMode, dividend, divisor, q, rem);
    return Ok(DigitDivision(checked.value, quotient, remainder, digits, steps));
  }

  /** The digit recurrence on absolute values. */
  method DigitLoop(digits: seq<nat>, d: nat) returns (q: nat, rem: nat, steps: seq<DigitStep>)
    requires AreDigits(digits) && d > 0
    ensures q * d + rem == Base4(digits) && rem < d
    ensures |steps| == |digits| && DigitsExact(steps, digits, d)
  {
    hide Base4, DigitsExact;
    q, rem, steps := 0, 0, [];
    ghost var seen := 0;
    NoDigits(digits, d);
    for i := 0 to |digits|
      invariant |steps| == i && rem < d && seen == Base4(digits[..i])
      invariant q * d + rem == seen
      invariant rem == Before(steps, i).p && q == Before(steps, i).q
      invariant DigitsExact(steps, digits, d)
    {
      NextDigit(digits, i);
      var shifted := 4 * rem + digits[i];
      var qDigit := shifted / d;
      DigitBound(shifted, d);
      if qDigit > 3 {
        qDigit := 3;
      }
      NextQuotient(q, rem, qDigit, shifted, d);
      seen := 4 * seen + digits[i];
      rem := shifted - qDigit * d;
      q := 4 * q + qDigit;
      ExactSnoc(steps, DigitStep(rem, qDigit, q), digits, d);
      steps := steps + [DigitStep(rem, qDigit, q)];
    }
    assert digits[..|digits|] == digits;
  }

  lemma NoDigits(digits: seq<nat>, d: nat)
    requires d > 0
    ensures Base4(digits[..0]) == 0 == 0 * d
    ensures DigitsExact([], digits, d)
  {
  }

  lemma NextDigit(digits: seq<nat>, i: nat)
    requires i < |digits|
    ensures Base4(digits[..i + 1]) == 4 * Base4(digits[..i]) + digits[i]
  {
    assert digits[..i + 1][..i] == digits[..i];
  }

  lemma ExactSnoc(steps: seq<DigitStep>, step: DigitStep, digits: seq<nat>, d: nat)
    requires d > 0 && |steps| < |digits| && DigitsExact(steps, digits, d)
    requires IsExact(step, 4 * Before(steps, |steps|).p + digits[|steps|], Before(steps, |steps|).q, d)
    ensures DigitsExact(steps + [step], digits, d)
  {
    hide IsExact;
    var all := steps + [step];
    forall i | 0 <= i < |all|
      ensures IsExact(all[i], 4 * Before(all, i).p + digits[i], Before(all, i).q, d)
    {
      assert Before(all, i) == Before(steps, i);
    }
  }

  lemma NextQuotient(q: nat, rem: nat, qDigit: nat, shifted: nat, d: nat)
    ensures (4 * q + qDigit) * d + (shifted - qDigit * d) == 4 * (q * d) + shifted
  {
    assert (4 * q + qDigit) * d == 4 * q * d + qDigit * d;
  }

  lemma DigitBound(rem: nat, d: nat)
    requires d > 0 && rem < 4 * d
    ensures 0 <= rem / d <= 3 && rem - rem / d * d == rem % d
  {
    QuotientBound(rem / d, rem % d, rem, d);
  }

  lemma QuotientBound(x: int, y: int, rem: nat, d: nat)
    requires rem == x * d + y && 0 <= y < d && rem < 4 * d
    ensures 0 <= x <= 3
  {
    Distributes(x, 3, d);
    MultipleIsLarge(x - 3, d);
    MultipleIsLarge(x, d);
  }

  /** Whenever the width is ample the two dividers return the same pair. */
  method BothDividers(dividend: int, divisor: int, width: Width, signedMode: bool)
    returns (first: Result<Division>, second: Result<DigitDivision>)
    ensures first.Err? <==> second.Err?
    ensures first.Ok? ==>
      && IsTruncated(dividend, divisor, second.value.quotient, second.value.remainder)
      && (Fits(dividend, divisor, first.value.width) <==>
          first.value.quotient == second.value.quotient && first.value.remainder == second.value.remainder)
    ensures first.Ok? && (width.Fixed? ==> BitLength(Abs(dividend)) <= width.n && BitLength(Abs(divisor)) <= width.n)
            ==> first.value.quotient == second.value.quotient && first.value.remainder == second.value.remainder
  {
    first := NonRestoringDivision(dividend, divisor, width, signedMode);
    second := SrtRadix4Division(dividend, divisor, width, signedMode);
    if first.Ok? {
      if Fits(dividend, divisor, first.value.width) {
        TruncatedIsUnique(dividend, divisor, first.value.quotient, first.value.remainder,
                          second.value.quotient, second.value.remainder);
      }
      if width.Fixed? ==> BitLength(Abs(dividend)) <= width.n && BitLength(Abs(divisor)) <= width.n {
        AmpleWidthFits(dividend, divisor, width, signedMode);
      }
    }
  }
}
