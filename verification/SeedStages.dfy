/** What one turn of a scheduling loop does: the wait with everything it brings, and the fill that follows. */
module SeedStages {
  import opened Arithmetic
  import opened Collections
  import opened SeedRuns

  /** When a stop signal may arrive: while the loop waits, which for the first fill means before it; before the k-th
      look at the stop flag; or between that look and the submission that follows it. */
  datatype Moment = DuringWait | BeforeLook(k: nat) | AfterLook(k: nat)

  type Signals = set<Moment>

  /** What one wait of at most a second brings: finished jobs, what the loop finds when it looks around, and signals
      until the next wait. */
  datatype Wake = Wake(done: map<nat, Status>, stopFile: bool, mergeFails: bool, signals: Signals)

  /** The variables of a loop between two waits. */
  datatype Stage = Stage(futures: map<nat, Job>, rows: seq<Row>, next: nat, sinceMerge: nat, stopEvent: bool)

  /** How many jobs there are to submit. */
  datatype Supply = Only(n: nat) | Endless

  // ----- the wait

  /** The jobs that land: those reported that are in flight. */
  function Landing(wake: Wake, futures: map<nat, Job>): set<nat> {
    wake.done.Keys * futures.Keys
  }

  /** Each job that lands has one row with the status reported for it; they come in the order of `order`. */
  ghost predicate AreLanded(done: map<nat, Status>, futures: map<nat, Job>, order: seq<nat>, rows: seq<Row>) {
    && Distinct(order) && |rows| == |order|
    && (forall t :: t in order <==> t in done && t in futures)
    && (forall i :: 0 <= i < |order| ==> rows[i] == Row(futures[order[i]], done[order[i]]))
  }

  predicate MergeIsDue(wake: Wake, coverageBatch: nat, s: Stage) {
    Landing(wake, s.futures) != {} && s.sinceMerge + |Landing(wake, s.futures)| >= coverageBatch
  }

  /** What a wake brings about before anything is submitted. */
  ghost predicate Wakes(wake: Wake, coverageBatch: nat, s: Stage, t: Stage) {
    && t.futures == s.futures - Landing(wake, s.futures) && t.next == s.next
    && s.rows <= t.rows && (exists order :: AreLanded(wake.done, s.futures, order, t.rows[|s.rows|..]))
    && t.sinceMerge == (if MergeIsDue(wake, coverageBatch, s) then 0 else s.sinceMerge + |Landing(wake, s.futures)|)
    && (t.stopEvent <==> s.stopEvent || DuringWait in wake.signals || wake.stopFile ||
                         (MergeIsDue(wake, coverageBatch, s) && wake.mergeFails))
  }

  // ----- the fill

  /** The later fills do not look at the stop file. */
  function NoStopFile(k: nat): bool {
    false
  }

  /** After `n` submissions of a fill: no look and no submission but the last was disturbed. */
  ghost predicate IsFilling(signals: Signals, stopFile: nat -> bool, stopEvent: bool, n: nat, stop: bool) {
    && (stopEvent ==> n == 0)
    && (forall k :: 0 <= k < n ==> BeforeLook(k) !in signals && !stopFile(k))
    && (forall k :: 0 <= k < n - 1 ==> AfterLook(k) !in signals)
    && (stop <==> stopEvent || (n > 0 && AfterLook(n - 1) in signals))
  }

  /** A fill of at most `room` submissions makes `n` of them and leaves the stop flag at `stop`: it goes on until there
      is no more room, the flag is seen, or no fresh seed comes. */
  ghost predicate IsFill(room: int, signals: Signals, stopFile: nat -> bool, stopEvent: bool, n: nat, stop: bool,
                         drawing: bool)
  {
    var late := stopEvent || (n > 0 && AfterLook(n - 1) in signals);
    var seen := late || (n < room && (BeforeLook(n) in signals || stopFile(n)));
    && n <= Max(0, room) && IsFilling(signals, stopFile, stopEvent, n, late)
    && (stop <==> seen)
    && (n < room ==> seen || drawing)
    && (drawing ==> n < room && !seen)
  }

  /** Unless it waits for a seed, size and flag after a fill are determined by what it starts from. */
  lemma FillIsDetermined(room: int, signals: Signals, stopFile: nat -> bool, stopEvent: bool, n: nat, stop: bool,
                         n': nat, stop': bool)
    requires IsFill(room, signals, stopFile, stopEvent, n, stop, false)
    requires IsFill(room, signals, stopFile, stopEvent, n', stop', false)
    ensures n == n' && stop == stop'
  {
  }

  lemma StartFilling(signals: Signals, stopFile: nat -> bool, stopEvent: bool)
    ensures IsFilling(signals, stopFile, stopEvent, 0, stopEvent)
  {
  }

  lemma NextFilling(signals: Signals, stopFile: nat -> bool, stopEvent: bool, n: nat)
    requires IsFilling(signals, stopFile, stopEvent, n, false) && BeforeLook(n) !in signals && !stopFile(n)
    ensures IsFilling(signals, stopFile, stopEvent, n + 1, AfterLook(n) in signals)
  {
  }

  /** The fill ends for want of room, at a look that sees the flag, or without a fresh seed. */
  lemma EndFilling(room: int, signals: Signals, stopFile: nat -> bool, stopEvent: bool, n: nat, late: bool, stop: bool,
                   drawing: bool)
    requires IsFilling(signals, stopFile, stopEvent, n, late) && n <= Max(0, room)
    requires stop == (late || (n < room && (BeforeLook(n) in signals || stopFile(n))))
    requires if n < room then stop != drawing else !drawing
    ensures IsFill(room, signals, stopFile, stopEvent, n, stop, drawing)
  {
  }

  function Room(jobs: nat, supply: Supply, s: Stage): int {
    var free := jobs - |s.futures|;
    if supply.Only? then Min(free, supply.n - s.next) else free
  }

  ghost predicate Fills(room: int, signals: Signals, stopFile: nat -> bool, s: Stage, t: Stage, drawing: bool) {
    && t.rows == s.rows && t.sinceMerge == s.sinceMerge && s.next <= t.next
    && IsFill(room, signals, stopFile, s.stopEvent, t.next - s.next, t.stopEvent, drawing)
    && AddsTickets(s.futures, t.futures, s.next, t.next)
  }

  ghost predicate AddsTickets(futures: map<nat, Job>, futures': map<nat, Job>, from: nat, to: nat) {
    && (forall t :: t in futures' <==> t in futures || from <= t < to)
    && (forall t <- futures :: futures'[t] == futures[t])
  }

  lemma FillIsFills(room: int, signals: Signals, stopFile: nat -> bool, s: Stage, t: Stage, drawing: bool)
    requires t.rows == s.rows && t.sinceMerge == s.sinceMerge && s.next <= t.next
    requires IsFill(room, signals, stopFile, s.stopEvent, t.next - s.next, t.stopEvent, drawing)
    requires AddsTickets(s.futures, t.futures, s.next, t.next)
    ensures Fills(room, signals, stopFile, s, t, drawing)
  {
  }

  lemma AddsNone(futures: map<nat, Job>, next: nat)
    ensures AddsTickets(futures, futures, next, next)
  {
  }

  lemma AddsNext(futures: map<nat, Job>, futures': map<nat, Job>, from: nat, to: nat, job: Job)
    requires AddsTickets(futures, futures', from, to) && from <= to && to !in futures
    ensures AddsTickets(futures, futures'[to := job], from, to + 1)
  {
  }

  // ----- one turn, and many

  /** A wait that brings no finished job is not followed by a fill. */
  ghost predicate Follows(jobs: nat, supply: Supply, wake: Wake, coverageBatch: nat, s: Stage, t: Stage, drawing: bool)
  {
    && s.futures != map[]
    && exists m ::
         && Wakes(wake, coverageBatch, s, m)
         && if Landing(wake, s.futures) == {} then t == m && !drawing
            else Fills(Room(jobs, supply, m), wake.signals, NoStopFile, m, t, drawing)
  }

  /** The stages of a loop that takes the wakes one after the other. */
  ghost predicate AreTaken(jobs: nat, supply: Supply, wakes: seq<Wake>, coverageBatch: nat, stages: seq<Stage>,
                           drawing: bool)
  {
    && 0 < |stages| <= |wakes| + 1
    && (forall w, v :: 0 <= w < |stages| - 1 && v == w + 1 ==>
          Follows(jobs, supply, wakes[w], coverageBatch, stages[w], stages[v], drawing && v == |stages| - 1))
  }

  /** It takes them until they run out, nothing is in flight, or no fresh seed comes. */
  ghost predicate AreStages(jobs: nat, supply: Supply, wakes: seq<Wake>, coverageBatch: nat, stages: seq<Stage>,
                            drawing: bool)
  {
    && AreTaken(jobs, supply, wakes, coverageBatch, stages, drawing)
    && (|stages| <= |wakes| ==> drawing || stages[|stages| - 1].futures == map[])
  }

  lemma FirstStage(jobs: nat, supply: Supply, wakes: seq<Wake>, coverageBatch: nat, s: Stage,
                   drawing: bool)
    ensures AreTaken(jobs, supply, wakes, coverageBatch, [s], drawing)
  {
  }

  lemma NextStage(jobs: nat, supply: Supply, wakes: seq<Wake>, coverageBatch: nat, stages: seq<Stage>, t: Stage,
                  drawing: bool)
    requires AreTaken(jobs, supply, wakes, coverageBatch, stages, false) && |stages| <= |wakes|
    requires Follows(jobs, supply, wakes[|stages| - 1], coverageBatch, stages[|stages| - 1], t, drawing)
    ensures AreTaken(jobs, supply, wakes, coverageBatch, stages + [t], drawing)
  {
    hide Follows;
    var more := stages + [t];
    forall w, v | 0 <= w < |more| - 1 && v == w + 1
      ensures Follows(jobs, supply, wakes[w], coverageBatch, more[w], more[v], drawing && v == |more| - 1)
    {
      if v < |stages| {
        assert Follows(jobs, supply, wakes[w], coverageBatch, stages[w], stages[v], false && v == |stages| - 1);
      }
    }
  }

  lemma FillFollows(jobs: nat, supply: Supply, wake: Wake, coverageBatch: nat, s: Stage, m: Stage, t: Stage,
                    drawing: bool)
    requires s.futures != map[] && Landing(wake, s.futures) != {} && Wakes(wake, coverageBatch, s, m)
    requires Fills(Room(jobs, supply, m), wake.signals, NoStopFile, m, t, drawing)
    ensures Follows(jobs, supply, wake, coverageBatch, s, t, drawing)
  {
  }

  lemma IdleFollows(jobs: nat, supply: Supply, wake: Wake, coverageBatch: nat, s: Stage, t: Stage)
    requires s.futures != map[] && Landing(wake, s.futures) == {} && Wakes(wake, coverageBatch, s, t)
    ensures Follows(jobs, supply, wake, coverageBatch, s, t, false)
    ensures t.futures == s.futures && t.next == s.next && (s.stopEvent ==> t.stopEvent)
  {
  }

  /** After a wake that finds the stop file, or a signal, or a merge that fails, nothing is submitted. */
  lemma StopSeen(jobs: nat, supply: Supply, wake: Wake, coverageBatch: nat, s: Stage, t: Stage, drawing: bool)
    requires Follows(jobs, supply, wake, coverageBatch, s, t, drawing)
    requires s.stopEvent || wake.stopFile || DuringWait in wake.signals ||
             (MergeIsDue(wake, coverageBatch, s) && wake.mergeFails)
    ensures t.stopEvent && t.next == s.next && t.futures == s.futures - Landing(wake, s.futures)
  {
  }

  /** So from such a wake on nothing is submitted any more. */
  lemma {:induction false} StopEndsRun(jobs: nat, supply: Supply, wakes: seq<Wake>, coverageBatch: nat,
                                       stages: seq<Stage>, drawing: bool, w: nat, v: nat)
    requires AreStages(jobs, supply, wakes, coverageBatch, stages, drawing) && w < v < |stages|
    requires stages[w].stopEvent || wakes[w].stopFile || DuringWait in wakes[w].signals ||
             (MergeIsDue(wakes[w], coverageBatch, stages[w]) && wakes[w].mergeFails)
    ensures stages[v].stopEvent && stages[v].next == stages[w].next
  {
    hide Follows, MergeIsDue;
    if v > w + 1 {
      StopEndsRun(jobs, supply, wakes, coverageBatch, stages, drawing, w, v - 1);
    }
    StopSeen(jobs, supply, wakes[v - 1], coverageBatch, stages[v - 1], stages[v], drawing && v == |stages| - 1);
  }
}
