/** The orders a benchmark call puts a list through, whatever its cells are: searches, turns, and what stands where. */
module ListOrders {
  import opened Collections
  import opened ListCells

  type Indices<T> = map<T, S16>

  type Words<T> = map<T, U16>

  // ----- turning a list round

  ghost function Backwards<T>(s: seq<T>): (r: seq<T>)
    ensures |r| == |s| && forall i :: 0 <= i < |r| ==> r[i] == s[|s| - 1 - i]
  {
    seq(|s|, i requires 0 <= i < |s| => s[|s| - 1 - i])
  }

  lemma BackwardsDistinct<T>(s: seq<T>)
    requires Distinct(s)
    ensures Distinct(Backwards(s)) && Elems(Backwards(s)) == Elems(s)
  {
    var back := Backwards(s);
    forall x | x in Elems(s)
      ensures x in Elems(back)
    {
      var i :| 0 <= i < |s| && s[i] == x;
      assert back[|s| - 1 - i] == x;
    }
  }

  lemma BackwardsTwice<T>(s: seq<T>)
    ensures Backwards(Backwards(s)) == s
  {
  }

  /** The element after position `m`, moved to position 1. */
  ghost function Moved<T>(s: seq<T>, m: nat): (r: seq<T>)
    requires m + 1 < |s|
    ensures |r| == |s|
  {
    if m == 0 then s else [s[0], s[m + 1]] + s[1..m + 1] + s[m + 2..]
  }

  function MovedFrom(m: nat, i: nat): nat {
    if i == 0 then 0 else if i == 1 then m + 1 else if i <= m + 1 then i - 1 else i
  }

  /** Where the element at position `p` goes when the one after position `m` moves up. */
  function MovedTo(m: nat, p: nat): nat {
    if p == 0 then 0 else if p == m + 1 then 1 else if p <= m then p + 1 else p
  }

  lemma MovedAt<T>(s: seq<T>, m: nat, p: nat)
    requires m + 1 < |s| && p < |s|
    ensures MovedTo(m, p) < |s| && Moved(s, m)[MovedTo(m, p)] == s[p]
    ensures MovedFrom(m, p) < |s| && (m > 0 ==> Moved(s, m)[p] == s[MovedFrom(m, p)])
  {
  }

  lemma MovedRearranges<T>(s: seq<T>, m: nat)
    requires m + 1 < |s| && Distinct(s)
    ensures Distinct(Moved(s, m)) && Elems(Moved(s, m)) == Elems(s)
  {
    if m > 0 {
      hide Moved;
      var r := Moved(s, m);
      forall i | 0 <= i < |s|
        ensures MovedFrom(m, i) < |s| && r[i] == s[MovedFrom(m, i)] && s[i] in r
      {
        MovedAt(s, m, i);
      }
      forall i, j | 0 <= i < j < |r|
        ensures r[i] != r[j]
      {
        assert MovedFrom(m, i) != MovedFrom(m, j);
      }
    }
  }

  /** The list reversed, and when position `k` was a hit, its new successor moved up. */
  ghost function Turned<T>(s: seq<T>, k: nat): (r: seq<T>)
    ensures |r| == |s|
  {
    if 0 < k < |s| then Moved(Backwards(s), |s| - 1 - k) else Backwards(s)
  }

  /** Where the element at position `i` goes. */
  function TurnedTo(n: nat, k: nat, i: nat): nat
    requires i < n && k <= n
  {
    if 0 < k < n then MovedTo(n - 1 - k, n - 1 - i) else n - 1 - i
  }

  lemma TurnedAt<T>(s: seq<T>, k: nat, i: nat)
    requires k <= |s| && i < |s|
    ensures TurnedTo(|s|, k, i) < |s| && Turned(s, k)[TurnedTo(|s|, k, i)] == s[i]
  {
    hide Moved, MovedTo;
    if 0 < k < |s| {
      MovedAt(Backwards(s), |s| - 1 - k, |s| - 1 - i);
    }
  }

  lemma TurnedRearranges<T>(s: seq<T>, k: nat)
    requires k <= |s| && Distinct(s)
    ensures Distinct(Turned(s, k)) && Elems(Turned(s, k)) == Elems(s)
  {
    hide Moved;
    BackwardsDistinct(s);
    if 0 < k < |s| {
      MovedRearranges(Backwards(s), |s| - 1 - k);
    }
  }

  // ----- searching

  /** What a search looks for: an index, or, when that is negative, a lower data byte. */
  predicate IsWanted<T>(indices: Indices<T>, data: Words<T>, x: T, idx: S16, data16: U16) {
    x in indices && x in data && if idx >= 0 then indices[x] == idx else Low(data[x]) == data16
  }

  /** The position of the first element wanted; the length when there is none. */
  function FirstWanted<T>(s: seq<T>, indices: Indices<T>, data: Words<T>, idx: S16, data16: U16): (k: nat)
    ensures k <= |s|
  {
    if s == [] || IsWanted(indices, data, s[0], idx, data16) then 0
    else 1 + FirstWanted(s[1..], indices, data, idx, data16)
  }

  lemma {:induction false} FirstIsFirst<T>(s: seq<T>, indices: Indices<T>, data: Words<T>, idx: S16, data16: U16,
                                           k: nat)
    requires k <= |s| && forall j :: 0 <= j < k ==> !IsWanted(indices, data, s[j], idx, data16)
    requires k < |s| ==> IsWanted(indices, data, s[k], idx, data16)
    ensures k == FirstWanted(s, indices, data, idx, data16)
  {
    if k > 0 {
      FirstIsFirst(s[1..], indices, data, idx, data16, k - 1);
    }
  }

  lemma {:induction false} FirstIsWanted<T>(s: seq<T>, indices: Indices<T>, data: Words<T>, idx: S16, data16: U16)
    ensures var k := FirstWanted(s, indices, data, idx, data16);
            && (forall j :: 0 <= j < k ==> !IsWanted(indices, data, s[j], idx, data16))
            && (k < |s| ==> IsWanted(indices, data, s[k], idx, data16))
  {
    if s != [] && !IsWanted(indices, data, s[0], idx, data16) {
      FirstIsWanted(s[1..], indices, data, idx, data16);
    }
  }

  /** The index searched for next wraps at sixteen bits; a negative one stays. */
  function NextIdx(idx: S16): S16 {
    if idx < 0 then idx else if idx == 0x7fff then -0x8000 else idx + 1
  }

  /** The arrangement after the searches numbered `i` and up. */
  ghost function Searched<T>(s: seq<T>, indices: Indices<T>, data: Words<T>, idx: S16, i: nat, findNum: S16): seq<T>
    decreases findNum - i
  {
    if i >= findNum then s
    else
      var k := FirstWanted(s, indices, data, idx, i % 256);
      Searched(Turned(s, k), indices, data, NextIdx(idx), i + 1, findNum)
  }

  lemma {:induction false} SearchedRearranges<T>(s: seq<T>, indices: Indices<T>, data: Words<T>, idx: S16, i: nat,
                                                 findNum: S16)
    requires Distinct(s)
    ensures var r := Searched(s, indices, data, idx, i, findNum);
            Distinct(r) && Elems(r) == Elems(s) && |r| == |s|
    decreases findNum - i
  {
    if i < findNum {
      hide Turned;
      var k := FirstWanted(s, indices, data, idx, i % 256);
      TurnedRearranges(s, k);
      SearchedRearranges(Turned(s, k), indices, data, NextIdx(idx), i + 1, findNum);
    }
  }

  ghost predicate ComesFirst<T>(s: seq<T>, x: T, y: T) {
    x in s && y in s && Index(s, x) < Index(s, y)
  }

  lemma IndexIs<T>(s: seq<T>, i: nat)
    requires Distinct(s) && i < |s|
    ensures s[i] in s && Index(s, s[i]) == i
  {
  }

  // ----- coming back

  /** The largest and the smallest value some kernel gives a data word. */
  function Highest(data: U16): U16 {
    if UsesKernel(data) then 127 else Value(data)
  }

  function Lowest(data: U16): U16 {
    if UsesKernel(data) then 0 else Value(data)
  }

  ghost predicate BytesAlike<T>(data: Words<T>, x: T) {
    x in data && Low(data[x]) == High(data[x])
  }

  /** Whatever the kernels return, `x` stands before `y` when the sort by index starts. */
  ghost predicate AlwaysStandsBefore<T>(s: seq<T>, indices: Indices<T>, data: Words<T>, finderIdx: S16, findNum: S16,
                                        x: T, y: T)
    requires x in data && y in data
  {
    var first := ComesFirst(Searched(s, indices, data, finderIdx, 0, findNum), x, y);
    if finderIdx > 0 then Highest(data[x]) < Lowest(data[y]) || (Highest(data[x]) == Lowest(data[y]) && first)
    else first
  }

  /** The condition, kernels aside, under which the call gives the list back whatever the kernels return. */
  ghost predicate AlwaysComesBack<T>(s: seq<T>, indices: Indices<T>, data: Words<T>, finderIdx: S16, findNum: S16) {
    && (forall i :: 0 <= i < |s| ==> s[i] in indices && BytesAlike(data, s[i]))
    && (forall i, j :: 0 <= i < j < |s| ==>
          || indices[s[i]] < indices[s[j]]
          || (indices[s[i]] == indices[s[j]] &&
              AlwaysStandsBefore(s, indices, data, finderIdx, findNum, s[i], s[j])))
  }

  /** The same for both calls an iteration of the benchmark makes. */
  ghost predicate RunComesBack<T>(s: seq<T>, indices: Indices<T>, data: Words<T>, findNum: S16) {
    AlwaysComesBack(s, indices, data, 1, findNum) && AlwaysComesBack(s, indices, data, -1, findNum)
  }

  // ----- only indices and data words matter

  /** `t` is `s` with every element replaced by its partner. */
  ghost predicate IsRenamed<T, U>(s: seq<T>, t: seq<U>, partner: map<T, U>) {
    |s| == |t| && forall i :: 0 <= i < |s| ==> s[i] in partner && partner[s[i]] == t[i]
  }

  /** Partners have the same index and the same data word. */
  ghost predicate SameItems<T, U>(partner: map<T, U>, indices: Indices<T>, data: Words<T>, indices': Indices<U>,
                                  data': Words<U>)
  {
    forall x <- partner ::
      && x in indices && partner[x] in indices' && indices[x] == indices'[partner[x]]
      && x in data && partner[x] in data' && data[x] == data'[partner[x]]
  }

  lemma {:induction false} FirstRenamed<T, U>(s: seq<T>, t: seq<U>, partner: map<T, U>, indices: Indices<T>,
      data: Words<T>, indices': Indices<U>, data': Words<U>, idx: S16, data16: U16)
    requires IsRenamed(s, t, partner) && SameItems(partner, indices, data, indices', data')
    ensures FirstWanted(s, indices, data, idx, data16) == FirstWanted(t, indices', data', idx, data16)
  {
    FirstIsWanted(s, indices, data, idx, data16);
    var k := FirstWanted(s, indices, data, idx, data16);
    forall j | 0 <= j < |s|
      ensures IsWanted(indices, data, s[j], idx, data16) <==> IsWanted(indices', data', t[j], idx, data16)
    {
    }
    FirstIsFirst(t, indices', data', idx, data16, k);
  }

  lemma TurnedRenamed<T, U>(s: seq<T>, t: seq<U>, partner: map<T, U>, k: nat)
    requires IsRenamed(s, t, partner)
    ensures IsRenamed(Turned(s, k), Turned(t, k), partner)
  {
  }

  lemma {:induction false} SearchedRenamed<T, U>(s: seq<T>, t: seq<U>, partner: map<T, U>, indices: Indices<T>,
      data: Words<T>, indices': Indices<U>, data': Words<U>, idx: S16, i: nat, findNum: S16)
    requires IsRenamed(s, t, partner) && SameItems(partner, indices, data, indices', data')
    ensures IsRenamed(Searched(s, indices, data, idx, i, findNum), Searched(t, indices', data', idx, i, findNum),
                      partner)
    decreases findNum - i
  {
    if i < findNum {
      hide Turned, IsRenamed, SameItems;
      var k := FirstWanted(s, indices, data, idx, i % 256);
      FirstRenamed(s, t, partner, indices, data, indices', data', idx, i % 256);
      TurnedRenamed(s, t, partner, k);
      SearchedRenamed(Turned(s, k), Turned(t, k), partner, indices, data, indices', data', NextIdx(idx), i + 1,
                      findNum);
    }
  }

  lemma ComesFirstRenamed<T, U>(s: seq<T>, t: seq<U>, partner: map<T, U>, x: T, y: T)
    requires IsRenamed(s, t, partner) && Distinct(s) && Distinct(t) && x in s && y in s
    ensures x in partner && y in partner
    ensures ComesFirst(s, x, y) <==> ComesFirst(t, partner[x], partner[y])
  {
    var i, j := Index(s, x), Index(s, y);
    IndexIs(t, i);
    IndexIs(t, j);
  }

  /** Whether a list always comes back depends on the indices and data words of its elements only. */
  lemma ComesBackRenamed<T, U>(s: seq<T>, t: seq<U>, partner: map<T, U>, indices: Indices<T>, data: Words<T>,
                               indices': Indices<U>, data': Words<U>, finderIdx: S16, findNum: S16)
    requires IsRenamed(s, t, partner) && SameItems(partner, indices, data, indices', data')
    requires Distinct(s) && Distinct(t)
    ensures AlwaysComesBack(s, indices, data, finderIdx, findNum) <==>
            AlwaysComesBack(t, indices', data', finderIdx, findNum)
  {
    hide Searched, ComesFirst, Highest, Lowest;
    SearchedRenamed(s, t, partner, indices, data, indices', data', finderIdx, 0, findNum);
    SearchedRearranges(s, indices, data, finderIdx, 0, findNum);
    SearchedRearranges(t, indices', data', finderIdx, 0, findNum);
    forall i, j | 0 <= i < j < |s|
      ensures AlwaysStandsBefore(s, indices, data, finderIdx, findNum, s[i], s[j]) <==>
              AlwaysStandsBefore(t, indices', data', finderIdx, findNum, t[i], t[j])
    {
      assert s[i] in Elems(s) && s[j] in Elems(s);
      ComesFirstRenamed(Searched(s, indices, data, finderIdx, 0, findNum),
                        Searched(t, indices', data', finderIdx, 0, findNum), partner, s[i], s[j]);
    }
  }
}
