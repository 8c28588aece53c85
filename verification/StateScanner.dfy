/** The number scanner: a small state machine over a zero-terminated buffer of comma-separated words. */
module StateScanner {
  import opened ByteLogic

  const COMMA: Byte := 44
  const DOT: Byte := 46

  datatype State = Start | Invalid | S1 | S2 | Int | Float | Exponent | Scientific

  // ----- the language of each state

  predicate IsDigit(b: Byte) {
    48 <= b <= 57
  }

  predicate IsSign(b: Byte) {
    b == 43 || b == 45
  }

  predicate IsE(b: Byte) {
    b == 69 || b == 101
  }

  /** A text as the bytes of its characters. */
  function Ascii(text: string): seq<int> {
    seq(|text|, i requires 0 <= i < |text| => text[i] as int)
  }

  lemma CharactersAre(b: Byte)
    ensures IsDigit(b) <==> '0' as int <= b <= '9' as int
    ensures IsSign(b) <==> b in Ascii("+-")
    ensures IsE(b) <==> b in Ascii("Ee")
    ensures COMMA == ',' as int && DOT == '.' as int
  {
    assert Ascii("+-") == [43, 45] && Ascii("Ee") == [69, 101];
  }

  predicate AllDigits(w: seq<Byte>) {
    forall i :: 0 <= i < |w| ==> IsDigit(w[i])
  }

  function SignLength(w: seq<Byte>): nat {
    if w != [] && IsSign(w[0]) then 1 else 0
  }

  /** An optional sign and at least one digit. */
  predicate IsInt(w: seq<Byte>) {
    |w| > SignLength(w) && AllDigits(w[SignLength(w)..])
  }

  /** An optional sign, digits, a point and digits, where either run of digits may be empty. */
  ghost predicate IsFloat(w: seq<Byte>) {
    exists k :: IsFloatAt(w, k)
  }

  predicate IsFloatAt(w: seq<Byte>, k: int) {
    SignLength(w) <= k < |w| && w[k] == DOT && AllDigits(w[SignLength(w)..k]) && AllDigits(w[k + 1..])
  }

  /** A float, an `e` and a sign. */
  ghost predicate IsExponent(w: seq<Byte>) {
    |w| >= 2 && IsFloat(w[..|w| - 2]) && IsE(w[|w| - 2]) && IsSign(w[|w| - 1])
  }

  predicate EndsInDigits(w: seq<Byte>, k: int) {
    0 <= k < |w| && AllDigits(w[k..])
  }

  /** The words of a format, complete or begun. */
  ghost predicate HasForm(state: State, w: seq<Byte>)
    requires state != Invalid
  {
    match state
    case Start => w == []
    case S1 => |w| == 1 && IsSign(w[0])
    case Int => IsInt(w)
    case Float => IsFloat(w)
    case S2 => w != [] && IsFloat(w[..|w| - 1]) && IsE(w[|w| - 1])
    case Exponent => IsExponent(w)
    case Scientific => exists k :: EndsInDigits(w, k) && IsExponent(w[..k])
  }

  /** The words that leave the scanner in `state`; the invalid ones have no form at all. */
  ghost predicate Grammar(state: State, w: seq<Byte>) {
    if state == Invalid then forall x: State :: x != Invalid ==> !HasForm(x, w) else HasForm(state, w)
  }

  // ----- the machine

  function Next(state: State, b: Byte): State {
    match state
    case Start => if IsDigit(b) then Int else if IsSign(b) then S1 else if b == DOT then Float else Invalid
    case S1 => if IsDigit(b) then Int else if b == DOT then Float else Invalid
    case Int => if b == DOT then Float else if !IsDigit(b) then Invalid else Int
    case Float => if IsE(b) then S2 else if !IsDigit(b) then Invalid else Float
    case S2 => if IsSign(b) then Exponent else Invalid
    case Exponent => if IsDigit(b) then Scientific else Invalid
    case Scientific => if !IsDigit(b) then Invalid else Scientific
    case Invalid => Invalid
  }

  function Run(w: seq<Byte>): State {
    if w == [] then Start else Next(Run(w[..|w| - 1]), w[|w| - 1])
  }

  lemma RunSnoc(w: seq<Byte>, b: Byte)
    ensures Run(w + [b]) == Next(Run(w), b)
  {
    assert (w + [b])[..|w|] == w;
  }

  lemma {:induction false} RunOverDigits(w: seq<Byte>, digits: seq<Byte>)
    requires Run(w) in {Int, Float, Scientific} && AllDigits(digits)
    ensures Run(w + digits) == Run(w)
  {
    if digits == [] {
      assert w + digits == w;
    } else {
      var front := digits[..|digits| - 1];
      RunOverDigits(w, front);
      RunSnoc(w + front, digits[|digits| - 1]);
      assert w + front + [digits[|digits| - 1]] == w + digits;
    }
  }

  lemma RunOnSign(w: seq<Byte>)
    ensures Run(w[..SignLength(w)]) == if SignLength(w) == 1 then S1 else Start
  {
    if SignLength(w) == 1 {
      assert w[..1] == [] + [w[0]];
      RunSnoc([], w[0]);
    }
  }

  lemma RunOnInt(w: seq<Byte>)
    requires IsInt(w)
    ensures Run(w) == Int
  {
    var n := SignLength(w);
    RunOnSign(w);
    assert w[n..][0] == w[n];
    RunSnoc(w[..n], w[n]);
    RunOverDigits(w[..n] + [w[n]], w[n + 1..]);
    assert w[..n] + [w[n]] + w[n + 1..] == w;
  }

  lemma RunBeforePoint(w: seq<Byte>, k: int)
    requires IsFloatAt(w, k)
    ensures Next(Run(w[..k]), DOT) == Float
  {
    var n := SignLength(w);
    if k > n {
      assert w[..k][n..] == w[n..k] && SignLength(w[..k]) == n;
      RunOnInt(w[..k]);
    } else {
      RunOnSign(w);
    }
  }

  lemma RunOnFloat(w: seq<Byte>)
    requires IsFloat(w)
    ensures Run(w) == Float
  {
    hide Next, Run, AllDigits;
    var k :| IsFloatAt(w, k);
    RunBeforePoint(w, k);
    RunSnoc(w[..k], w[k]);
    RunOverDigits(w[..k] + [w[k]], w[k + 1..]);
    assert w[..k] + [w[k]] + w[k + 1..] == w;
  }

  lemma RunOnExponent(w: seq<Byte>)
    requires IsExponent(w)
    ensures Run(w) == Exponent
  {
    RunOnFloat(w[..|w| - 2]);
    assert w[..|w| - 1][..|w| - 2] == w[..|w| - 2];
  }

  lemma RunOnScientific(w: seq<Byte>, k: int)
    requires EndsInDigits(w, k) && IsExponent(w[..k])
    ensures Run(w) == Scientific
  {
    RunOnExponent(w[..k]);
    assert w[k..][0] == w[k];
    RunSnoc(w[..k], w[k]);
    RunOverDigits(w[..k] + [w[k]], w[k + 1..]);
    assert w[..k] + [w[k]] + w[k + 1..] == w;
  }

  /** Every word of a format takes the machine to that format's state. */
  lemma FormsRun(state: State, w: seq<Byte>)
    requires state != Invalid && HasForm(state, w)
    ensures Run(w) == state
  {
    match state
    case Start =>
    case S1 => RunSnoc([], w[0]); assert [] + [w[0]] == w;
    case Int => RunOnInt(w);
    case Float => RunOnFloat(w);
    case S2 => RunOnFloat(w[..|w| - 1]);
    case Exponent => RunOnExponent(w);
    case Scientific =>
      var k :| EndsInDigits(w, k) && IsExponent(w[..k]);
      RunOnScientific(w, k);
  }

  /** One more byte turns a word of one format into a word of the next. */
  lemma FormStep(state: State, w: seq<Byte>, b: Byte)
    requires state != Invalid && HasForm(state, w) && Next(state, b) != Invalid
    ensures HasForm(Next(state, b), w + [b])
  {
    var r := w + [b];
    assert r[..|w|] == w;
    match state
    case Start =>
      if b == DOT { assert IsFloatAt(r, 0); }
    case S1 =>
      if b == DOT { assert IsFloatAt(r, 1); }
    case Int =>
      var n := SignLength(w);
      assert r[n..|w|] == w[n..];
      if b == DOT { assert IsFloatAt(r, |w|); }
    case Float =>
      if !IsE(b) { FloatGrows(w, b); }
    case S2 =>
      assert r[..|r| - 2] == w[..|w| - 1];
    case Exponent =>
      assert EndsInDigits(r, |w|);
    case Scientific =>
      ScientificGrows(w, b);
  }

  lemma FloatGrows(w: seq<Byte>, b: Byte)
    requires IsFloat(w) && IsDigit(b)
    ensures IsFloat(w + [b])
  {
    var r := w + [b];
    var k :| IsFloatAt(w, k);
    assert r[SignLength(w)..k] == w[SignLength(w)..k] && r[k + 1..] == w[k + 1..] + [b];
    assert IsFloatAt(r, k);
  }

  lemma ScientificGrows(w: seq<Byte>, b: Byte)
    requires HasForm(Scientific, w) && IsDigit(b)
    ensures HasForm(Scientific, w + [b])
  {
    var r := w + [b];
    var k :| EndsInDigits(w, k) && IsExponent(w[..k]);
    assert r[k..] == w[k..] + [b] && r[..k] == w[..k];
    assert EndsInDigits(r, k);
  }

  lemma {:induction false} RunHasForm(w: seq<Byte>)
    requires Run(w) != Invalid
    ensures HasForm(Run(w), w)
  {
    if w != [] {
      var v, b := w[..|w| - 1], w[|w| - 1];
      RunHasForm(v);
      FormStep(Run(v), v, b);
      assert v + [b] == w;
    }
  }

  /** The machine decides the grammar. */
  lemma RunIffGrammar(state: State, w: seq<Byte>)
    ensures Run(w) == state <==> Grammar(state, w)
  {
    if Run(w) != Invalid {
      RunHasForm(w);
    }
    forall x: State | x != Invalid && HasForm(x, w)
      ensures Run(w) == x
    {
      FormsRun(x, w);
    }
  }

  // ----- one call of the transition function

  const STATES := 8

  function Ord(state: State): (k: nat)
    ensures k < STATES
  {
    match state
    case Start => 0
    case Invalid => 1
    case S1 => 2
    case S2 => 3
    case Int => 4
    case Float => 5
    case Exponent => 6
    case Scientific => 7
  }

  /** The states in the order in which they are numbered. */
  const IN_ORDER: seq<State> := [Start, Invalid, S1, S2, Int, Float, Exponent, Scientific]

  lemma OrdIsPosition(x: State)
    ensures |IN_ORDER| == STATES && IN_ORDER[Ord(x)] == x
    ensures forall k :: 0 <= k < STATES ==> Ord(IN_ORDER[k]) == k
  {
  }

  predicate IsPlain(w: seq<Byte>) {
    forall i :: 0 <= i < |w| ==> w[i] != 0 && w[i] != COMMA
  }

  /** The bytes of a call without the comma that ends it. */
  function Word(s: seq<Byte>, p: nat, e: nat): seq<Byte>
    requires p < e <= |s|
  {
    if s[e - 1] == COMMA then s[p..e - 1] else s[p..e]
  }

  /** One call reads `s[p..e]`: a word of the format it reports, up to and including a comma or up to a zero; or
      a word of no format, of which every shorter beginning has one. */
  ghost predicate IsCall(s: seq<Byte>, p: nat, e: nat, state: State) {
    && p < e <= |s| && IsPlain(Word(s, p, e)) && Grammar(state, Word(s, p, e))
    && (state != Invalid ==> s[e - 1] == COMMA || (e < |s| && s[e] == 0))
    && (state == Invalid ==> s[e - 1] != COMMA && !Grammar(Invalid, s[p..e - 1]))
  }

  /** What a call leaves in the transition counter of `x`: states are counted when they are left, a word that
      turns invalid at its first byte or inside an exponent is counted as invalid. */
  ghost function Crossings(w: seq<Byte>, x: State): nat {
    match x
    case Start => if w != [] then 1 else 0
    case Invalid =>
      if w != [] && Run(w) == Invalid && Run(w[..|w| - 1]) in {Start, Scientific} then 1 else 0
    case Scientific => 0
    case _ => if Run(w) != x && Visits(w, x) then 1 else 0
  }

  ghost predicate Visits(w: seq<Byte>, x: State) {
    exists k :: 0 <= k < |w| && Run(w[..k]) == x
  }

  function Bump(counts: seq<nat>, x: State): seq<nat>
    requires |counts| == STATES
  {
    counts[Ord(x) := counts[Ord(x)] + 1]
  }

  /** The counter changes of one byte. */
  function Counted(counts: seq<nat>, state: State, b: Byte): seq<nat>
    requires |counts| == STATES
  {
    match state
    case Start => if Next(Start, b) == Invalid then Bump(Bump(counts, Invalid), Start) else Bump(counts, Start)
    case Scientific => if Next(Scientific, b) == Invalid then Bump(counts, Invalid) else counts
    case Invalid => counts
    case _ => if Next(state, b) != state then Bump(counts, state) else counts
  }

  /** The counters a word leaves behind. */
  ghost predicate CountedWord(before: seq<nat>, w: seq<Byte>, after: seq<nat>) {
    |before| == |after| == STATES && forall x: State :: after[Ord(x)] == before[Ord(x)] + Crossings(w, x)
  }

  lemma CountNothing(counts: seq<nat>)
    requires |counts| == STATES
    ensures CountedWord(counts, [], counts)
  {
  }

  lemma CountByte(before: seq<nat>, w: seq<Byte>, counts: seq<nat>, b: Byte)
    requires CountedWord(before, w, counts) && Run(w) != Invalid
    ensures CountedWord(before, w + [b], Counted(counts, Run(w), b))
  {
    var r := w + [b];
    RunSnoc(w, b);
    assert r[..|w|] == w;
    forall x: State
      ensures Counted(counts, Run(w), b)[Ord(x)] == before[Ord(x)] + Crossings(r, x)
    {
      VisitsSnoc(w, b, x);
      CrossingsSnoc(w, b, x);
    }
  }

  lemma VisitsSnoc(w: seq<Byte>, b: Byte, x: State)
    ensures Visits(w + [b], x) <==> Visits(w, x) || Run(w) == x
  {
    var r := w + [b];
    assert r[..|w|] == w;
    assert forall k :: 0 <= k <= |w| ==> r[..k] == w[..k];
    if Visits(w, x) {
      var k :| 0 <= k < |w| && Run(w[..k]) == x;
      assert Run(r[..k]) == x;
    }
  }

  /** A state that is left is not entered again. */
  lemma CrossingsSnoc(w: seq<Byte>, b: Byte, x: State)
    requires Run(w) != Invalid
    ensures Crossings(w + [b], x) == Crossings(w, x) +
            (if x == Start then (if w == [] then 1 else 0)
             else if x == Invalid then (if Next(Run(w), b) == Invalid && Run(w) in {Start, Scientific} then 1 else 0)
             else if x == Scientific then 0
             else if Run(w) == x && Next(x, b) != x then 1 else 0)
  {
    var r := w + [b];
    RunSnoc(w, b);
    assert r[..|w|] == w;
    VisitsSnoc(w, b, x);
    NoReturn(w, b, x);
  }

  function Rank(state: State): nat {
    match state
    case Start => 0
    case S1 => 1
    case Int => 2
    case Float => 3
    case S2 => 4
    case Exponent => 5
    case Scientific => 6
    case Invalid => 7
  }

  lemma {:induction false} RankGrows(w: seq<Byte>, k: nat)
    requires k <= |w|
    ensures Rank(Run(w[..k])) <= Rank(Run(w))
  {
    if k == |w| {
      assert w[..k] == w;
    } else {
      RankGrows(w[..|w| - 1], k);
      assert w[..|w| - 1][..k] == w[..k];
    }
  }

  lemma NoReturn(w: seq<Byte>, b: Byte, x: State)
    ensures Visits(w, x) && Run(w) != x ==> Next(Run(w), b) != x
  {
    if Visits(w, x) && Run(w) != x {
      var k :| 0 <= k < |w| && Run(w[..k]) == x;
      RankGrows(w, k);
      assert Rank(x) < Rank(Run(w)) <= Rank(Next(Run(w), b));
    }
  }

  method Increment(counts: array<nat>, x: State)
    requires counts.Length == STATES
    modifies counts
    ensures counts[..] == Bump(old(counts[..]), x)
  {
    counts[Ord(x)] := counts[Ord(x)] + 1;
  }

  /** The switch over the states. */
  method Advance(state: State, b: Byte, counts: array<nat>) returns (next: State)
    requires counts.Length == STATES
    modifies counts
    ensures next == Next(state, b) && counts[..] == Counted(old(counts[..]), state, b)
  {
    hide Bump, Ord;
    next := state;
    match state
    case Start =>
      if IsDigit(b) {
        next := Int;
      } else if IsSign(b) {
        next := S1;
      } else if b == DOT {
        next := Float;
      } else {
        next := Invalid;
        Increment(counts, Invalid);
      }
      Increment(counts, Start);
    case S1 =>
      if IsDigit(b) {
        next := Int;
      } else if b == DOT {
        next := Float;
      } else {
        next := Invalid;
      }
      Increment(counts, S1);
    case Int =>
      if b == DOT {
        next := Float;
        Increment(counts, Int);
      } else if !IsDigit(b) {
        next := Invalid;
        Increment(counts, Int);
      }
    case Float =>
      if IsE(b) {
        next := S2;
        Increment(counts, Float);
      } else if !IsDigit(b) {
        next := Invalid;
        Increment(counts, Float);
      }
    case S2 =>
      if IsSign(b) {
        next := Exponent;
      } else {
        next := Invalid;
      }
      Increment(counts, S2);
    case Exponent =>
      if IsDigit(b) {
        next := Scientific;
      } else {
        next := Invalid;
      }
      Increment(counts, Exponent);
    case Scientific =>
      if !IsDigit(b) {
        next := Invalid;
        Increment(counts, Invalid);
      }
    case Invalid =>
  }

  ghost predicate IsTerminated(s: seq<Byte>, p: nat, z: nat) {
    p <= z < |s| && s[z] == 0
  }

  /** What the loop of a call knows after reading `s[p..e]`. */
  ghost predicate IsReading(s: seq<Byte>, p: nat, e: nat, state: State) {
    && p <= e <= |s| && IsPlain(s[p..e]) && Run(s[p..e]) == state
    && (state == Invalid ==> p < e && Run(s[p..e - 1]) != Invalid)
  }

  lemma ReadByte(s: seq<Byte>, p: nat, e: nat, state: State)
    requires IsReading(s, p, e, state) && e < |s| && s[e] != 0 && s[e] != COMMA && state != Invalid
    ensures IsReading(s, p, e + 1, Next(state, s[e])) && s[p..e + 1] == s[p..e] + [s[e]]
  {
    assert s[p..e + 1] == s[p..e] + [s[e]];
    RunSnoc(s[p..e], s[e]);
  }

  lemma CallEnds(s: seq<Byte>, p: nat, e: nat, state: State)
    requires IsReading(s, p, e, state)
    ensures p < e && s[e - 1] != COMMA && (state == Invalid || (e < |s| && s[e] == 0)) ==>
              IsCall(s, p, e, state) && Word(s, p, e) == s[p..e]
    ensures state != Invalid && e < |s| && s[e] == COMMA ==>
              IsCall(s, p, e + 1, state) && Word(s, p, e + 1) == s[p..e]
  {
    RunIffGrammar(state, s[p..e]);
    if state == Invalid {
      RunIffGrammar(Invalid, s[p..e - 1]);
    }
  }

  lemma PlainEnd(s: seq<Byte>, p: nat, e: nat, state: State)
    requires IsReading(s, p, e, state) && p < e
    ensures s[e - 1] != COMMA
  {
    assert s[p..e][e - 1 - p] == s[e - 1];
  }

  /** Reads one word, starting at `p`. */
  method Transition(buf: array<Byte>, p: nat, counts: array<nat>, ghost z: nat) returns (q: nat, state: State)
    requires counts.Length == STATES && IsTerminated(buf[..], p, z) && (counts as object) != buf
    modifies counts
    ensures buf[..] == old(buf[..]) && q <= z
    ensures buf[p] == 0 ==> q == p && state == Start && counts[..] == old(counts[..])
    ensures buf[p] != 0 ==>
      IsCall(buf[..], p, q, state) && CountedWord(old(counts[..]), Word(buf[..], p, q), counts[..])
  {
    hide IsReading, IsCall, CountedWord, Next, Counted, Grammar, Run;
    ghost var s, before := buf[..], counts[..];
    var str := p;
    state := Start;
    Opening(s, p);
    CountNothing(before);
    while buf[str] != 0 && state != Invalid
      invariant p <= str <= z && buf[..] == s
      invariant IsReading(s, p, str, state) && CountedWord(before, s[p..str], counts[..])
      invariant if str == p then state == Start && counts[..] == before else s[p] != 0
      decreases z - str
    {
      var nextSymbol := buf[str];
      if nextSymbol == COMMA {
        CallEnds(s, p, str, state);
        return str + 1, state;
      }
      RunIs(s, p, str, state);
      CountByte(before, s[p..str], counts[..], nextSymbol);
      ReadByte(s, p, str, state);
      state := Advance(state, nextSymbol, counts);
      str := str + 1;
    }
    if str > p {
      PlainEnd(s, p, str, state);
      CallEnds(s, p, str, state);
    }
    q := str;
  }

  lemma Opening(s: seq<Byte>, p: nat)
    requires p <= |s|
    ensures IsReading(s, p, p, Start) && s[p..p] == []
  {
    assert s[p..p] == [];
  }

  lemma RunIs(s: seq<Byte>, p: nat, e: nat, state: State)
    requires IsReading(s, p, e, state)
    ensures p <= e <= |s| && Run(s[p..e]) == state
  {
  }

  // ----- scanning a whole buffer

  /** The calls that scan `s` up to its first zero: call `i` reads from `cuts[i]` to `cuts[i + 1]`. */
  ghost predicate AreCalls(s: seq<Byte>, cuts: seq<nat>, states: seq<State>) {
    && |cuts| == |states| + 1 && cuts[0] == 0
    && forall i, j :: 0 <= i < |states| && j == i + 1 ==> IsCall(s, cuts[i], cuts[j], states[i])
  }

  ghost predicate IsScan(s: seq<Byte>, cuts: seq<nat>, states: seq<State>) {
    && AreCalls(s, cuts, states)
    && cuts[|states|] < |s| && s[cuts[|states|]] == 0
  }

  /** How many calls ended in `x`. */
  function Occurrences(states: seq<State>, x: State): nat {
    if states == [] then 0
    else Occurrences(states[..|states| - 1], x) + if states[|states| - 1] == x then 1 else 0
  }

  /** What all calls together leave in the transition counter of `x`. */
  ghost function TotalCrossings(s: seq<Byte>, cuts: seq<nat>, states: seq<State>, x: State): nat
    requires AreCalls(s, cuts, states)
  {
    if states == [] then 0
    else
      var n := |states| - 1;
      assert IsCall(s, cuts[n], cuts[n + 1], states[n]);
      TotalCrossings(s, cuts[..n + 1], states[..n], x) + Crossings(Word(s, cuts[n], cuts[n + 1]), x)
  }

  ghost predicate CountedCalls(before: seq<nat>, states: seq<State>, after: seq<nat>) {
    |before| == |after| == STATES && forall x: State :: after[Ord(x)] == before[Ord(x)] + Occurrences(states, x)
  }

  ghost predicate CountedTransitions(before: seq<nat>, s: seq<Byte>, cuts: seq<nat>, states: seq<State>,
                                     after: seq<nat>)
  {
    && AreCalls(s, cuts, states) && |before| == |after| == STATES
    && forall x: State :: after[Ord(x)] == before[Ord(x)] + TotalCrossings(s, cuts, states, x)
  }

  lemma NoCalls(s: seq<Byte>, counts: seq<nat>)
    requires |counts| == STATES
    ensures AreCalls(s, [0], []) && CountedCalls(counts, [], counts) && CountedTransitions(counts, s, [0], [], counts)
  {
  }

  lemma NextCall(before: seq<nat>, s: seq<Byte>, cuts: seq<nat>, states: seq<State>, counts: seq<nat>, q: nat,
                 state: State, after: seq<nat>)
    requires CountedTransitions(before, s, cuts, states, counts) && IsCall(s, cuts[|states|], q, state)
    requires CountedWord(counts, Word(s, cuts[|states|], q), after)
    ensures CountedTransitions(before, s, cuts + [q], states + [state], after)
  {
    hide IsCall, Crossings;
    var n := |states|;
    assert (cuts + [q])[..n + 1] == cuts && (states + [state])[..n] == states;
    assert AreCalls(s, cuts + [q], states + [state]);
  }

  lemma NextFinal(before: seq<nat>, states: seq<State>, counts: seq<nat>, state: State)
    requires CountedCalls(before, states, counts)
    ensures CountedCalls(before, states + [state], Bump(counts, state))
  {
    assert (states + [state])[..|states|] == states;
  }

  lemma LastCall(s: seq<Byte>, p: nat, q: nat, state: State)
    requires IsCall(s, p, q, state)
    ensures p < q <= |s|
  {
  }

  /** Runs the machine over the buffer until a call would start at a zero. */
  method Scan(buf: array<Byte>, finals: array<nat>, track: array<nat>, ghost z: nat)
    returns (ghost cuts: seq<nat>, ghost states: seq<State>)
    requires finals.Length == track.Length == STATES && finals != track
    requires (finals as object) != buf && (track as object) != buf && IsTerminated(buf[..], 0, z)
    modifies finals, track
    ensures buf[..] == old(buf[..]) && IsScan(buf[..], cuts, states)
    ensures CountedCalls(old(finals[..]), states, finals[..])
    ensures CountedTransitions(old(track[..]), buf[..], cuts, states, track[..])
  {
    hide AreCalls, CountedCalls, CountedTransitions, IsCall, CountedWord, Bump;
    ghost var s, finals0, track0 := buf[..], finals[..], track[..];
    var p := 0;
    cuts, states := [0], [];
    NoCalls(s, finals0);
    NoCalls(s, track0);
    while buf[p] != 0
      invariant p <= z && buf[..] == s && |cuts| == |states| + 1 && cuts[|states|] == p
      invariant AreCalls(s, cuts, states) && CountedCalls(finals0, states, finals[..])
      invariant CountedTransitions(track0, s, cuts, states, track[..])
      decreases z - p
    {
      ghost var before, finalsBefore := track[..], finals[..];
      var q, fstate := Transition(buf, p, track, z);
      NextCall(track0, s, cuts, states, before, q, fstate, track[..]);
      TransitionsCounted(track0, s, cuts + [q], states + [fstate], track[..]);
      NextFinal(finals0, states, finalsBefore, fstate);
      LastCall(s, p, q, fstate);
      Increment(finals, fstate);
      cuts, states := cuts + [q], states + [fstate];
      p := q;
    }
    ScanIs(s, cuts, states);
  }

  lemma TransitionsCounted(before: seq<nat>, s: seq<Byte>, cuts: seq<nat>, states: seq<State>, after: seq<nat>)
    requires CountedTransitions(before, s, cuts, states, after)
    ensures AreCalls(s, cuts, states)
  {
  }

  lemma ScanIs(s: seq<Byte>, cuts: seq<nat>, states: seq<State>)
    requires |cuts| == |states| + 1
    requires AreCalls(s, cuts, states) && cuts[|states|] < |s| && s[cuts[|states|]] == 0
    ensures IsScan(s, cuts, states)
  {
  }

  // ----- what a scan means

  /** The scan stops at the first zero. */
  lemma {:induction false} CallsSkipNoZero(s: seq<Byte>, cuts: seq<nat>, states: seq<State>)
    requires AreCalls(s, cuts, states)
    ensures |states| <= cuts[|states|] <= |s| && forall i :: 0 <= i < cuts[|states|] ==> s[i] != 0
    decreases |states|
  {
    if states != [] {
      var n := |states| - 1;
      CallsSkipNoZero(s, cuts[..n + 1], states[..n]);
      assert IsCall(s, cuts[n], cuts[n + 1], states[n]);
      InsideIsPlain(s, cuts[n], cuts[n + 1], states[n]);
    }
  }

  /** A call is determined by where it starts. */
  lemma CallIsUnique(s: seq<Byte>, p: nat, e: nat, state: State, e': nat, state': State)
    requires IsCall(s, p, e, state) && IsCall(s, p, e', state')
    ensures e == e' && state == state'
  {
    CallNotLonger(s, p, e, state, e', state');
    CallNotLonger(s, p, e', state', e, state);
    RunIffGrammar(state, Word(s, p, e));
    RunIffGrammar(state', Word(s, p, e'));
  }

  lemma CallNotLonger(s: seq<Byte>, p: nat, e: nat, state: State, e': nat, state': State)
    requires IsCall(s, p, e, state) && IsCall(s, p, e', state')
    ensures e >= e'
  {
    hide *;
    CallFacts(s, p, e, state);
    CallFacts(s, p, e', state');
    if e < e' {
      assert state == Invalid;
      WordPrefix(s, p, e', e - p);
      InvalidStays(Word(s, p, e'), e - p);
      assert s[p..e] == s[p..e' - 1][..e - p];
      InvalidStays(s[p..e' - 1], e - p);
      assert false;
    }
  }

  lemma CallFacts(s: seq<Byte>, p: nat, e: nat, state: State)
    requires IsCall(s, p, e, state)
    ensures p < e <= |s| && Run(Word(s, p, e)) == state
    ensures forall i :: p <= i < e ==> s[i] != 0
    ensures forall i :: p <= i < e - 1 ==> s[i] != COMMA
    ensures state != Invalid ==> s[e - 1] == COMMA || (e < |s| && s[e] == 0)
    ensures state == Invalid ==> s[e - 1] != COMMA && Run(s[p..e - 1]) != Invalid && Run(s[p..e]) == Invalid
  {
    InsideIsPlain(s, p, e, state);
    RunIffGrammar(state, Word(s, p, e));
    RunIffGrammar(Invalid, s[p..e - 1]);
  }

  lemma WordPrefix(s: seq<Byte>, p: nat, e: nat, k: nat)
    requires p < e <= |s| && k < e - p
    ensures k <= |Word(s, p, e)| && Word(s, p, e)[..k] == s[p..p + k]
  {
  }

  lemma InvalidStays(w: seq<Byte>, k: nat)
    requires k <= |w| && Run(w[..k]) == Invalid
    ensures Run(w) == Invalid
  {
    RankGrows(w, k);
  }

  lemma InsideIsPlain(s: seq<Byte>, p: nat, e: nat, state: State)
    requires IsCall(s, p, e, state)
    ensures forall i :: p <= i < e ==> s[i] != 0
    ensures forall i :: p <= i < e - 1 ==> s[i] != COMMA
  {
    var w := Word(s, p, e);
    forall i | p <= i < e
      ensures s[i] != 0 && (i < e - 1 ==> s[i] != COMMA)
    {
      assert i - p < |w| ==> w[i - p] == s[i];
    }
  }

  lemma {:induction false} OccurrencesOfAll(states: seq<State>)
    ensures Occurrences(states, Start) + Occurrences(states, Invalid) + Occurrences(states, S1)
            + Occurrences(states, S2) + Occurrences(states, Int) + Occurrences(states, Float)
            + Occurrences(states, Exponent) + Occurrences(states, Scientific) == |states|
  {
    if states != [] {
      OccurrencesOfAll(states[..|states| - 1]);
    }
  }

  /** How many calls start at a comma. */
  ghost function EmptyCalls(s: seq<Byte>, cuts: seq<nat>, states: seq<State>): nat
    requires AreCalls(s, cuts, states)
  {
    if states == [] then 0
    else
      var n := |states| - 1;
      assert IsCall(s, cuts[n], cuts[n + 1], states[n]);
      EmptyCalls(s, cuts[..n + 1], states[..n]) + if s[cuts[n]] == COMMA then 1 else 0
  }

  /** The counter of `Start` is the number of calls that do not start at a comma. */
  lemma {:induction false} StartCounter(s: seq<Byte>, cuts: seq<nat>, states: seq<State>)
    requires AreCalls(s, cuts, states)
    ensures TotalCrossings(s, cuts, states, Start) + EmptyCalls(s, cuts, states) == |states|
    decreases |states|
  {
    if states != [] {
      var n := |states| - 1;
      StartCounter(s, cuts[..n + 1], states[..n]);
      assert IsCall(s, cuts[n], cuts[n + 1], states[n]);
      EmptyCall(s, cuts[n], cuts[n + 1], states[n]);
      hide IsCall, Word, AreCalls;
    }
  }

  lemma EmptyCall(s: seq<Byte>, p: nat, e: nat, state: State)
    requires IsCall(s, p, e, state)
    ensures s[p] == COMMA <==> Word(s, p, e) == []
  {
    InsideIsPlain(s, p, e, state);
  }

  /** A buffer has one scan. */
  lemma {:induction false} ScanIsUnique(s: seq<Byte>, cuts: seq<nat>, states: seq<State>, cuts': seq<nat>,
                                        states': seq<State>)
    requires IsScan(s, cuts, states) && IsScan(s, cuts', states')
    ensures cuts == cuts' && states == states'
  {
    hide IsCall;
    var n := if |states| <= |states'| then |states| else |states'|;
    SameCalls(s, cuts, states, cuts', states', n);
    if |states| < |states'| {
      assert IsCall(s, cuts'[n], cuts'[n + 1], states'[n]);
      LastCall(s, cuts'[n], cuts'[n + 1], states'[n]);
      InsideIsPlain(s, cuts'[n], cuts'[n + 1], states'[n]);
      assert false;
    }
    if |states'| < |states| {
      assert IsCall(s, cuts[n], cuts[n + 1], states[n]);
      LastCall(s, cuts[n], cuts[n + 1], states[n]);
      InsideIsPlain(s, cuts[n], cuts[n + 1], states[n]);
      assert false;
    }
  }

  lemma {:induction false} SameCalls(s: seq<Byte>, cuts: seq<nat>, states: seq<State>, cuts': seq<nat>,
                                     states': seq<State>, n: nat)
    requires AreCalls(s, cuts, states) && AreCalls(s, cuts', states') && n <= |states| && n <= |states'|
    ensures cuts[..n + 1] == cuts'[..n + 1] && states[..n] == states'[..n]
  {
    hide IsCall;
    if n > 0 {
      SameCalls(s, cuts, states, cuts', states', n - 1);
      var i := n - 1;
      assert cuts[..n][i] == cuts'[..n][i];
      assert IsCall(s, cuts[i], cuts[n], states[i]) && IsCall(s, cuts'[i], cuts'[n], states'[i]);
      CallIsUnique(s, cuts[i], cuts[n], states[i], cuts'[n], states'[i]);
    }
  }

  /** Every comma before the first zero ends a call, so no word can spoil the next. */
  lemma {:induction false} CommaEndsACall(s: seq<Byte>, cuts: seq<nat>, states: seq<State>, j: nat) returns (k: nat)
    requires AreCalls(s, cuts, states) && j < cuts[|states|] && j < |s| && s[j] == COMMA
    ensures k < |states| && cuts[k] <= j && cuts[k + 1] == j + 1
    decreases |states|
  {
    hide IsCall;
    var n := |states| - 1;
    assert states != [];
    if j < cuts[n] {
      k := CommaEndsACall(s, cuts[..n + 1], states[..n], j);
    } else {
      k := n;
      assert IsCall(s, cuts[n], cuts[n + 1], states[n]);
      CallFacts(s, cuts[n], cuts[n + 1], states[n]);
    }
  }
}
