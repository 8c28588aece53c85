/** Reading a running 64-bit cycle counter through two 32-bit registers. */
module CycleCounter {
  const WORD := 0x1_0000_0000

  /** The registers show the low 64 bits of the cycles passed. */
  function High(cycles: nat): nat {
    cycles / WORD % WORD
  }

  function Low(cycles: nat): nat {
    cycles % WORD
  }

  function Compose(high: nat, low: nat): nat {
    high * WORD + low
  }

  lemma ComposeParts(cycles: nat)
    ensures Compose(High(cycles), Low(cycles)) == cycles % (WORD * WORD)
  {
    var words := cycles / WORD;
    assert cycles == WORD * WORD * (words / WORD) + Compose(High(cycles), Low(cycles));
  }

  ghost predicate NeverRunsBack(at: nat -> nat) {
    forall i, j :: i <= j ==> at(i) <= at(j)
  }

  /** The carries into the high word so far. */
  function Carries(cycles: nat): nat {
    cycles / WORD
  }

  /** Equal high words before and after mean that no carry happened in between. */
  lemma SameHighMeansNoCarry(before: nat, middle: nat, after: nat)
    requires before <= middle <= after && after - before < WORD * WORD - WORD
    requires High(before) == High(after)
    ensures Carries(before) == Carries(middle) == Carries(after)
  {
    var turns := Carries(after) - Carries(before);
    assert turns % WORD == 0;
    assert turns < WORD;
  }

  /** Iteration `k` makes the reads 3k, 3k + 1 and 3k + 2; it is quiet when the high word is the same before and
      after. */
  predicate IsQuiet(at: nat -> nat, k: nat) {
    High(at(3 * k)) == High(at(3 * k + 2))
  }

  /** Some iteration is quiet: what the loop needs to end at all. */
  ghost predicate Settles(at: nat -> nat) {
    exists k: nat :: IsQuiet(at, k)
  }

  /** Iteration `k` ends the call with `cycles`: it is the first quiet one, each of the `k` retries before it was paid
      for by a carry, and unless the counter came around a full turn within it, no carry fell between its reads and
      `cycles` is the count at its low read. */
  ghost predicate EndsAt(at: nat -> nat, k: nat, cycles: nat) {
    && IsQuiet(at, k) && (forall q: nat :: q < k ==> !IsQuiet(at, q))
    && Carries(at(3 * k)) >= Carries(at(0)) + k
    && (at(3 * k + 2) - at(3 * k) < WORD * WORD - WORD ==>
          && cycles == at(3 * k + 1) % 0x1_0000_0000_0000_0000
          && Carries(at(3 * k)) == Carries(at(3 * k + 1)) == Carries(at(3 * k + 2)))
  }

  /** `at(i)` is the cycle count at the moment of the i-th register read. */
  method ReadMonitorCycles(at: nat -> nat) returns (cycles: nat)
    requires NeverRunsBack(at) && Settles(at)
    ensures exists k: nat :: EndsAt(at, k, cycles)
  {
    hide High, Low, Carries, Compose, IsQuiet;
    ghost var quiet: nat :| IsQuiet(at, quiet);
    var n := 0;
    ghost var k: nat := 0;
    var highBefore, low, highAfter := High(at(n)), Low(at(n + 1)), High(at(n + 2));
    QuietMeans(at, k);
    while highBefore != highAfter
      invariant n == 3 * k && k <= quiet
      invariant highBefore == High(at(n)) && low == Low(at(n + 1)) && highAfter == High(at(n + 2))
      invariant IsQuiet(at, k) <==> highBefore == highAfter
      invariant forall q: nat :: q < k ==> !IsQuiet(at, q)
      decreases quiet - k
    {
      n := n + 3;
      k := k + 1;
      QuietMeans(at, k);
      highBefore := High(at(n));
      low := Low(at(n + 1));
      highAfter := High(at(n + 2));
    }
    RetriesArePaid(at, k);
    LastRead(at(n), at(n + 1), at(n + 2));
    cycles := Compose(highAfter, low);
    assert EndsAt(at, k, cycles);
  }

  lemma QuietMeans(at: nat -> nat, k: nat)
    ensures IsQuiet(at, k) <==> High(at(3 * k)) == High(at(3 * k + 2))
  {
  }

  /** Every iteration that is not quiet costs a carry. */
  lemma {:induction false} RetriesArePaid(at: nat -> nat, k: nat)
    requires NeverRunsBack(at) && forall q: nat :: q < k ==> !IsQuiet(at, q)
    ensures Carries(at(3 * k)) >= Carries(at(0)) + k
    ensures k > 0 ==> Carries(at(3 * k - 1)) >= Carries(at(0)) + k
  {
    if k > 0 {
      RetriesArePaid(at, k - 1);
      assert !IsQuiet(at, k - 1);
      RetryMeansCarry(at(3 * k - 3), at(3 * k - 1), at(3 * k));
    }
  }

  lemma RetryMeansCarry(before: nat, after: nat, next: nat)
    requires before <= after <= next && High(before) != High(after)
    ensures Carries(next) >= Carries(after) >= Carries(before) + 1
  {
  }

  /** A bound on the counter's rate bounds the retries: when it advances by no more than k - 1 words over the first k
      iterations, one of them is quiet. With two iterations in 2^32 cycles there is at most one retry. */
  lemma RateBoundSettles(at: nat -> nat, k: nat)
    requires NeverRunsBack(at) && k > 0 && at(3 * k - 1) - at(0) <= (k - 1) * WORD
    ensures Settles(at) && exists q: nat :: q < k && IsQuiet(at, q)
  {
    RetriesTakeTime(at, k);
  }

  lemma RetriesTakeTime(at: nat -> nat, k: nat)
    requires NeverRunsBack(at) && k > 0
    ensures (forall q: nat :: q < k ==> !IsQuiet(at, q)) ==> at(3 * k - 1) - at(0) > (k - 1) * WORD
  {
    hide IsQuiet;
    if forall q: nat :: q < k ==> !IsQuiet(at, q) {
      RetriesArePaid(at, k);
      CarriesTakeTime(at(0), at(3 * k - 1), k);
    }
  }

  lemma CarriesTakeTime(first: nat, last: nat, k: nat)
    ensures Carries(last) >= Carries(first) + k ==> last - first > (k - 1) * WORD
  {
    assert first < (Carries(first) + 1) * WORD && last >= Carries(last) * WORD;
  }

  /** The call's result under the rate bound. */
  lemma RetriesAreBounded(at: nat -> nat, k: nat, retries: nat, cycles: nat)
    requires NeverRunsBack(at) && k > 0 && at(3 * k - 1) - at(0) <= (k - 1) * WORD
    requires EndsAt(at, retries, cycles)
    ensures retries < k
  {
    hide IsQuiet;
    RateBoundSettles(at, k);
  }

  lemma LastRead(before: nat, middle: nat, after: nat)
    requires before <= middle <= after && High(before) == High(after)
    ensures after - before < WORD * WORD - WORD ==>
              && Compose(High(after), Low(middle)) == middle % (WORD * WORD)
              && Carries(before) == Carries(middle) == Carries(after)
  {
    if after - before < WORD * WORD - WORD {
      SameHighMeansNoCarry(before, middle, after);
      ComposeParts(middle);
    }
  }

  /** Without the second look at the high word a carry between the reads tears the value by exactly 2^32. */
  lemma SingleLookTears(atHigh: nat, atLow: nat)
    requires atHigh < atLow < WORD * WORD && atLow - atHigh < WORD
    ensures Compose(High(atHigh), Low(atLow)) == if High(atHigh) == High(atLow) then atLow else atLow - WORD
  {
    ComposeParts(atLow);
    assert atLow % (WORD * WORD) == atLow;
    assert atHigh / WORD < WORD && atLow / WORD < WORD;
  }
}
