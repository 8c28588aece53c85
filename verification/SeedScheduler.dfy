/** The two scheduling loops of the regression driver, and the tables they keep. */
module SeedScheduler {
  import opened Arithmetic
  import opened Collections
  import opened SeedRuns
  import opened SeedStages

  type Results = map<Seed, Status>

  predicate IsFailure(status: Status) {
    status in {Fail, Timeout, Error}
  }

  // ----- the tables

  /** The result table: the last result of a seed replaces earlier ones. */
  function Stored(db: Results, rows: seq<Row>): Results {
    if rows == [] then db
    else
      var row := rows[|rows| - 1];
      Stored(db, rows[..|rows| - 1])[row.job.seed := row.status]
  }

  /** The permanent failure table: seeds that fail enter, and replayed seeds are updated whatever they return. */
  function Remembered(failures: Results, rows: seq<Row>): Results {
    if rows == [] then failures
    else
      var row, before := rows[|rows| - 1], Remembered(failures, rows[..|rows| - 1]);
      if IsFailure(row.status) || row.job.replay then before[row.job.seed := row.status] else before
  }

  lemma {:induction false} StoredKeys(db: Results, rows: seq<Row>)
    ensures forall s :: s in Stored(db, rows) <==> s in db || exists i :: 0 <= i < |rows| && rows[i].job.seed == s
  {
    if rows != [] {
      var front := rows[..|rows| - 1];
      StoredKeys(db, front);
      forall s
        ensures s in Stored(db, rows) <==> s in db || exists i :: 0 <= i < |rows| && rows[i].job.seed == s
      {
        if exists i :: 0 <= i < |front| && front[i].job.seed == s {
          var i :| 0 <= i < |front| && front[i].job.seed == s;
          assert rows[i].job.seed == s;
        }
        if s == rows[|rows| - 1].job.seed {
          assert rows[|rows| - 1].job.seed == s;
        }
      }
    }
  }

  /** Failures are never forgotten, and a seed enters only by failing. */
  lemma {:induction false} RememberedKeys(failures: Results, rows: seq<Row>)
    ensures failures.Keys <= Remembered(failures, rows).Keys
    ensures forall i :: 0 <= i < |rows| && rows[i].status != Pass ==> rows[i].job.seed in Remembered(failures, rows)
    ensures forall s :: s in Remembered(failures, rows) && s !in failures ==>
              exists i :: 0 <= i < |rows| && rows[i].job.seed == s && (rows[i].status != Pass || rows[i].job.replay)
  {
    if rows != [] {
      var front, last := rows[..|rows| - 1], rows[|rows| - 1];
      RememberedKeys(failures, front);
      forall s | s in Remembered(failures, rows) && s !in failures
        ensures (exists i :: 0 <= i < |rows| && rows[i].job.seed == s &&
                             (rows[i].status != Pass || rows[i].job.replay))
      {
        if s in Remembered(failures, front) {
          var i :| 0 <= i < |front| && front[i].job.seed == s && (front[i].status != Pass || front[i].job.replay);
          assert rows[i].job.seed == s;
        } else {
          assert last.job.seed == s && rows[|rows| - 1] == last;
        }
      }
    }
  }

  // ----- the state of a loop

  /** The variables of a scheduling loop after the events of `trace`, of which those of `fill` belong to a first fill
      that does not look at the stop flag. */
  ghost predicate Tracks(jobs: nat, fill: Trace, trace: Trace, futures: map<nat, Job>, next: nat, rows: seq<Row>) {
    && IsRun(jobs, trace) && futures == InFlight(trace) && next == |Jobs(trace)| && rows == Rows(trace)
    && fill <= trace && GuardedFrom(trace, |fill|)
  }

  lemma NothingYet(jobs: nat)
    ensures Tracks(jobs, [], [], map[], 0, []) && Jobs([]) == [] && !IsFlagged([]) && Late([]) == 0 && !GapSince([], 0)
  {
  }

  /** A submission after a look. */
  lemma SubmitTracked(jobs: nat, fill: Trace, trace: Trace, futures: map<nat, Job>, next: nat, rows: seq<Row>, job: Job)
    requires Tracks(jobs, fill, trace, futures, next, rows) && |futures| < jobs && !HasStopped(trace) && Looked(trace)
    ensures Tracks(jobs, fill, trace + [Submit(job)], futures[next := job], next + 1, rows)
    ensures Jobs(trace + [Submit(job)]) == Jobs(trace) + [job]
    ensures IsFlagged(trace + [Submit(job)]) == IsFlagged(trace) && |futures[next := job]| == |futures| + 1
    ensures GapSince(trace + [Submit(job)], |fill|) <==> GapSince(trace, |fill|) || trace[|trace| - 1] == Request
  {
    hide Looked, GuardedFrom, GapSince;
    Snoc(jobs, trace, Submit(job));
    EachRecordedOnce(jobs, trace);
    Counts(futures, next, job, 0);
    GuardedSnoc(trace, Submit(job), |fill|);
    GapSnoc(trace, Submit(job), |fill|);
    LookedMeans(trace);
  }

  /** A submission, or a signal, in the first fill. */
  lemma FillTracked(jobs: nat, trace: Trace, futures: map<nat, Job>, next: nat, rows: seq<Row>, e: Event)
    requires Tracks(jobs, trace, trace, futures, next, rows) && !HasStopped(trace)
    requires e == Request || (e.Submit? && |futures| < jobs)
    ensures var more := trace + [e];
            && Tracks(jobs, more, more, if e.Submit? then futures[next := e.job] else futures,
                      if e.Submit? then next + 1 else next, rows)
            && Jobs(more) == (if e.Submit? then Jobs(trace) + [e.job] else Jobs(trace)) && !HasStopped(more)
            && (IsFlagged(more) <==> IsFlagged(trace) || e == Request)
            && Late(more) == Late(trace) + if e.Submit? && IsFlagged(trace) then 1 else 0
    ensures e.Submit? ==> |futures[next := e.job]| == |futures| + 1
  {
    hide GuardedFrom;
    Snoc(jobs, trace, e);
    EachRecordedOnce(jobs, trace);
    Counts(futures, next, if e.Submit? then e.job else Job(0, false), 0);
    GuardedAtEnd(trace + [e]);
  }

  lemma GuardedAtEnd(trace: Trace)
    ensures GuardedFrom(trace, |trace|)
  {
  }

  /** A look, a signal, or a stop that is seen. */
  lemma FlagTracked(jobs: nat, fill: Trace, trace: Trace, futures: map<nat, Job>, next: nat, rows: seq<Row>, e: Event)
    requires Tracks(jobs, fill, trace, futures, next, rows) && e in {Look, Request, Stop}
    requires e == Look ==> !IsFlagged(trace)
    ensures Tracks(jobs, fill, trace + [e], futures, next, rows) && Jobs(trace + [e]) == Jobs(trace)
    ensures IsFlagged(trace + [e]) <==> IsFlagged(trace) || e != Look
    ensures HasStopped(trace + [e]) <==> HasStopped(trace) || e == Stop
    ensures Looked(trace + [e]) <==> e == Look || (e == Request && Looked(trace))
    ensures GapSince(trace + [e], |fill|) <==> GapSince(trace, |fill|)
  {
    hide GuardedFrom, GapSince, Looked;
    Snoc(jobs, trace, e);
    GuardedSnoc(trace, e, |fill|);
    GapSnoc(trace, e, |fill|);
  }

  lemma FinishTracked(jobs: nat, fill: Trace, trace: Trace, futures: map<nat, Job>, next: nat, rows: seq<Row>, t: nat,
                      status: Status)
    requires Tracks(jobs, fill, trace, futures, next, rows) && t in futures
    ensures Tracks(jobs, fill, trace + [Finish(t, status)], futures - {t}, next, rows + [Row(futures[t], status)])
    ensures Jobs(trace + [Finish(t, status)]) == Jobs(trace)
    ensures IsFlagged(trace + [Finish(t, status)]) == IsFlagged(trace)
    ensures GapSince(trace + [Finish(t, status)], |fill|) == GapSince(trace, |fill|)
  {
    hide GuardedFrom, GapSince, Looked;
    Snoc(jobs, trace, Finish(t, status));
    GuardedSnoc(trace, Finish(t, status), |fill|);
    GapSnoc(trace, Finish(t, status), |fill|);
  }

  lemma StoreTracked(db: Results, failures: Results, rows: seq<Row>, row: Row)
    ensures Stored(db, rows + [row]) == Stored(db, rows)[row.job.seed := row.status]
    ensures Remembered(failures, rows + [row]) ==
            if IsFailure(row.status) || row.job.replay then Remembered(failures, rows)[row.job.seed := row.status]
            else Remembered(failures, rows)
  {
    assert (rows + [row])[..|rows|] == rows;
  }

  /** The statuses in the new events are the ones the finished jobs returned. */
  ghost predicate Reports(trace: Trace, from: nat, done: map<nat, Status>) {
    forall i :: from <= i < |trace| ==>
      trace[i].Finish? && trace[i].ticket in done && trace[i].status == done[trace[i].ticket]
  }

  /** Takes the finished jobs out of flight and records their rows, in whatever order they come. */
  method Land(jobs: nat, done: map<nat, Status>, futures0: map<nat, Job>, rows0: seq<Row>, db0: Results,
              failures0: Results, ghost fill: Trace, ghost trace0: Trace, ghost next: nat, ghost dbBase: Results,
              ghost failuresBase: Results)
    returns (futures: map<nat, Job>, rows: seq<Row>, db: Results, failures: Results, ghost trace: Trace,
             ghost order: seq<nat>)
    requires Tracks(jobs, fill, trace0, futures0, next, rows0) && done.Keys <= futures0.Keys
    requires db0 == Stored(dbBase, rows0) && failures0 == Remembered(failuresBase, rows0)
    ensures Tracks(jobs, fill, trace, futures, next, rows) && futures == futures0 - done.Keys
    ensures Jobs(trace) == Jobs(trace0) && IsFlagged(trace) == IsFlagged(trace0)
    ensures GapSince(trace, |fill|) == GapSince(trace0, |fill|)
    ensures db == Stored(dbBase, rows) && failures == Remembered(failuresBase, rows)
    ensures trace0 <= trace && Reports(trace, |trace0|, done)
    ensures rows0 <= rows && AreLanded(done, futures0, order, rows[|rows0|..])
  {
    hide Tracks, Stored, Remembered, Jobs, IsFlagged, GapSince, LandedButFor, AreLanded;
    NoneLandedYet(done, futures0, rows0);
    futures, rows, db, failures, trace, order := futures0, rows0, db0, failures0, trace0, [];
    var todo := done.Keys;
    while todo != {}
      invariant todo <= done.Keys && todo <= futures.Keys && futures == futures0 - (done.Keys - todo)
      invariant Tracks(jobs, fill, trace, futures, next, rows)
      invariant Jobs(trace) == Jobs(trace0) && IsFlagged(trace) == IsFlagged(trace0)
      invariant GapSince(trace, |fill|) == GapSince(trace0, |fill|)
      invariant db == Stored(dbBase, rows) && failures == Remembered(failuresBase, rows)
      invariant trace0 <= trace && Reports(trace, |trace0|, done)
      invariant LandedButFor(done, futures0, todo, order, rows0, rows)
      decreases |todo|
    {
      var t: nat := Pick(todo);
      var row := Row(futures[t], done[t]);
      FinishTracked(jobs, fill, trace, futures, next, rows, t, done[t]);
      StoreTracked(dbBase, failuresBase, rows, row);
      OneMoreLanded(done, futures0, todo, order, rows0, rows, t);
      futures := futures - {t};
      rows := rows + [row];
      db := db[row.job.seed := row.status];
      if IsFailure(row.status) || row.job.replay {
        failures := failures[row.job.seed := row.status];
      }
      trace, order := trace + [Finish(t, done[t])], order + [t];
      todo := todo - {t};
    }
    AllLanded(done, futures0, order, rows0, rows);
  }

  /** The jobs of `done` have landed, but for those of `todo`. */
  ghost predicate LandedButFor(done: map<nat, Status>, futures: map<nat, Job>, todo: set<nat>, order: seq<nat>,
                               rows0: seq<Row>, rows: seq<Row>)
  {
    && rows0 <= rows && |rows| == |rows0| + |order| && Distinct(order)
    && (forall t :: t in order <==> t in done && t !in todo)
    && (forall i :: 0 <= i < |order| ==>
          order[i] in futures && order[i] in done && rows[|rows0| + i] == Row(futures[order[i]], done[order[i]]))
  }

  lemma OneMoreLanded(done: map<nat, Status>, futures: map<nat, Job>, todo: set<nat>, order: seq<nat>,
                      rows0: seq<Row>, rows: seq<Row>, t: nat)
    requires LandedButFor(done, futures, todo, order, rows0, rows) && t in todo && t in done && t in futures
    ensures LandedButFor(done, futures, todo - {t}, order + [t], rows0, rows + [Row(futures[t], done[t])])
  {
  }

  lemma NoneLandedYet(done: map<nat, Status>, futures: map<nat, Job>, rows: seq<Row>)
    ensures LandedButFor(done, futures, done.Keys, [], rows, rows)
  {
  }

  lemma AllLanded(done: map<nat, Status>, futures: map<nat, Job>, order: seq<nat>, rows0: seq<Row>, rows: seq<Row>)
    requires LandedButFor(done, futures, {}, order, rows0, rows) && done.Keys <= futures.Keys
    ensures rows0 <= rows && AreLanded(done, futures, order, rows[|rows0|..])
  {
    hide Distinct;
    assert forall t: nat :: t in done ==> t in futures.Keys;
  }

  /** Sets the stop flag when there is a reason to: a signal, or what the loop itself has seen. */
  method SetFlag(jobs: nat, reason: bool, ghost event: Event, stopEvent0: bool, ghost fill: Trace, ghost trace0: Trace,
                 ghost futures: map<nat, Job>, ghost next: nat, ghost rows: seq<Row>)
    returns (stopEvent: bool, ghost trace: Trace)
    requires Tracks(jobs, fill, trace0, futures, next, rows) && stopEvent0 == IsFlagged(trace0)
    requires event == Request || event == Stop
    ensures stopEvent == (stopEvent0 || reason) == IsFlagged(trace)
    ensures Tracks(jobs, fill, trace, futures, next, rows) && Jobs(trace) == Jobs(trace0)
    ensures GapSince(trace, |fill|) == GapSince(trace0, |fill|)
    ensures trace == if reason then trace0 + [event] else trace0
    ensures event == Request ==> Looked(trace) == Looked(trace0) && HasStopped(trace) == HasStopped(trace0)
  {
    hide Tracks, Jobs, HasStopped, IsFlagged, GapSince, Looked;
    stopEvent, trace := stopEvent0, trace0;
    if reason {
      FlagTracked(jobs, fill, trace0, futures, next, rows, event);
      stopEvent, trace := true, trace0 + [event];
    }
  }

  /** Looks at the stop flag: it is clear, or the stop is seen. */
  ghost method LookAtFlag(jobs: nat, stopEvent: bool, fill: Trace, trace0: Trace, futures: map<nat, Job>, next: nat,
                          rows: seq<Row>)
    returns (trace: Trace)
    requires Tracks(jobs, fill, trace0, futures, next, rows) && stopEvent == IsFlagged(trace0)
    ensures Tracks(jobs, fill, trace, futures, next, rows) && Jobs(trace) == Jobs(trace0)
    ensures IsFlagged(trace) == stopEvent && GapSince(trace, |fill|) == GapSince(trace0, |fill|)
    ensures stopEvent ==> HasStopped(trace)
    ensures !stopEvent ==> Looked(trace) && !HasStopped(trace) && trace == trace0 + [Look]
  {
    hide Tracks, Jobs, GapSince, Looked;
    var e := if stopEvent then Stop else Look;
    FlagTracked(jobs, fill, trace0, futures, next, rows, e);
    trace := trace0 + [e];
  }

  function Finished(wake: Wake, futures: map<nat, Job>): map<nat, Status> {
    map t | t in wake.done && t in futures :: wake.done[t]
  }

  /** One wait and what the loop does with it, up to the next fill: the same in both loops. */
  method TakeWake(jobs: nat, wake: Wake, coverageBatch: nat, sinceMerge0: nat, futures0: map<nat, Job>, rows0: seq<Row>,
                  db0: Results, failures0: Results, stopEvent0: bool, ghost fill: Trace, ghost trace0: Trace,
                  ghost next: nat, ghost dbBase: Results, ghost failuresBase: Results)
    returns (idle: bool, sinceMerge: nat, futures: map<nat, Job>, rows: seq<Row>, db: Results, failures: Results,
             stopEvent: bool, ghost trace: Trace)
    requires Tracks(jobs, fill, trace0, futures0, next, rows0) && stopEvent0 == IsFlagged(trace0)
    requires db0 == Stored(dbBase, rows0) && failures0 == Remembered(failuresBase, rows0)
    ensures Tracks(jobs, fill, trace, futures, next, rows) && stopEvent == IsFlagged(trace) &&
            Jobs(trace) == Jobs(trace0)
    ensures db == Stored(dbBase, rows) && failures == Remembered(failuresBase, rows)
    ensures GapSince(trace, |fill|) == GapSince(trace0, |fill|)
    ensures idle <==> Landing(wake, futures0) == {}
    ensures Wakes(wake, coverageBatch, Stage(futures0, rows0, next, sinceMerge0, stopEvent0),
                  Stage(futures, rows, next, sinceMerge, stopEvent))
  {
    hide Tracks, Jobs, HasStopped, IsFlagged, GapSince, Looked, Stored, Remembered, AreLanded, Wakes;
    ghost var before := Stage(futures0, rows0, next, sinceMerge0, stopEvent0);
    idle, sinceMerge, futures, rows, db, failures := false, sinceMerge0, futures0, rows0, db0, failures0;
    stopEvent, trace :=
      SetFlag(jobs, DuringWait in wake.signals, Request, stopEvent0, fill, trace0, futures, next, rows);
    var done := Finished(wake, futures);
    if done == map[] {
      stopEvent, trace := SetFlag(jobs, wake.stopFile, Stop, stopEvent, fill, trace, futures, next, rows);
      idle := true;
      NoneLanded(wake, coverageBatch, before, stopEvent);
      return;
    }
    ghost var order;
    futures, rows, db, failures, trace, order :=
      Land(jobs, done, futures, rows, db, failures, fill, trace, next, dbBase, failuresBase);
    sinceMerge := sinceMerge + |done|;
    if sinceMerge >= coverageBatch {
      stopEvent, trace := SetFlag(jobs, wake.mergeFails, Stop, stopEvent, fill, trace, futures, next, rows);
      sinceMerge := 0;
    }
    stopEvent, trace := SetFlag(jobs, wake.stopFile, Stop, stopEvent, fill, trace, futures, next, rows);
    SomeLanded(wake, coverageBatch, before, Stage(futures, rows, next, sinceMerge, stopEvent), order);
  }

  lemma NoneLanded(wake: Wake, coverageBatch: nat, s: Stage, stop: bool)
    requires Finished(wake, s.futures) == map[]
    requires stop == (s.stopEvent || DuringWait in wake.signals || wake.stopFile)
    ensures Landing(wake, s.futures) == {} && Wakes(wake, coverageBatch, s, s.(stopEvent := stop))
  {
    hide AreLanded;
    FinishedLand(wake, s.futures);
    assert s.rows[|s.rows|..] == [];
    NothingLands(wake, s.futures);
  }

  lemma NothingLands(wake: Wake, futures: map<nat, Job>)
    requires Landing(wake, futures) == {}
    ensures AreLanded(wake.done, futures, [], [])
  {
    assert forall t: nat :: t in wake.done && t in futures ==> t in Landing(wake, futures);
  }

  lemma SomeLanded(wake: Wake, coverageBatch: nat, s: Stage, t: Stage, order: seq<nat>)
    requires Finished(wake, s.futures) != map[]
    requires s.rows <= t.rows && AreLanded(Finished(wake, s.futures), s.futures, order, t.rows[|s.rows|..])
    requires t.next == s.next && t.futures == s.futures - Finished(wake, s.futures).Keys
    requires var sum := s.sinceMerge + |Finished(wake, s.futures)|;
             && t.sinceMerge == (if sum >= coverageBatch then 0 else sum)
             && t.stopEvent == (s.stopEvent || DuringWait in wake.signals ||
                                (sum >= coverageBatch && wake.mergeFails) ||
                                wake.stopFile)
    ensures Landing(wake, s.futures) != {} && Wakes(wake, coverageBatch, s, t)
  {
    hide AreLanded;
    FinishedLand(wake, s.futures);
    LandedInWake(wake, s.futures, order, t.rows[|s.rows|..]);
  }

  lemma FinishedLand(wake: Wake, futures: map<nat, Job>)
    ensures Finished(wake, futures).Keys == Landing(wake, futures)
    ensures |Finished(wake, futures)| == |Landing(wake, futures)|
    ensures Landing(wake, futures) == {} ==> Finished(wake, futures) == map[]
  {
    var done := Finished(wake, futures);
    assert done.Keys == Landing(wake, futures);
    assert |done| == |done.Keys|;
  }

  lemma LandedInWake(wake: Wake, futures: map<nat, Job>, order: seq<nat>, rows: seq<Row>)
    requires AreLanded(Finished(wake, futures), futures, order, rows)
    ensures AreLanded(wake.done, futures, order, rows)
  {
    hide Distinct;
    forall i | 0 <= i < |order|
      ensures order[i] in wake.done && order[i] in futures
      ensures rows[i] == Row(futures[order[i]], wake.done[order[i]])
    {
      assert order[i] in order;
    }
  }

  // ----- the finite run

  function Plain(seeds: seq<Seed>): seq<Job> {
    seq(|seeds|, i requires 0 <= i < |seeds| => Job(seeds[i], false))
  }

  lemma PlainNext(seeds: seq<Seed>, n: nat)
    requires n < |seeds|
    ensures Plain(seeds[..n + 1]) == Plain(seeds[..n]) + [Job(seeds[n], false)]
  {
  }

  /** What is true of a run over a list of seeds, wherever it is cut off. */
  ghost predicate IsFiniteRun(jobs: nat, pending: seq<Seed>, db0: Results, trace: Trace, futures: map<nat, Job>,
                              rows: seq<Row>, db: Results)
  {
    && IsRun(jobs, trace) && futures == InFlight(trace) && rows == Rows(trace) && db == Stored(db0, rows)
    && |Jobs(trace)| <= |pending| && Jobs(trace) == Plain(pending[..|Jobs(trace)|])
  }

  /** A signal has come before the k-th submission of a fill is made. */
  function AskedBy(signals: Signals, k: nat): bool {
    DuringWait in signals || BeforeLook(k) in signals || AfterLook(k) in signals || (k > 0 && AskedBy(signals, k - 1))
  }

  /** How many of the `first` submissions of a fill that does not look at the flag come after a signal. */
  function InVain(signals: Signals, first: nat): (n: nat)
    ensures n <= first
  {
    if first == 0 then 0 else InVain(signals, first - 1) + if AskedBy(signals, first - 1) then 1 else 0
  }

  /** They are all those from the first submission before which a signal has come. */
  lemma {:induction false} InVainFrom(signals: Signals, first: nat, k: nat)
    requires k <= first && (k > 0 ==> !AskedBy(signals, k - 1)) && (k < first ==> AskedBy(signals, k))
    ensures InVain(signals, first) == first - k
  {
    if first > 0 {
      if k == first {
        NotAskedBefore(signals, k - 1, k - 1);
        if k > 1 {
          NotAskedBefore(signals, k - 1, k - 2);
        }
        InVainFrom(signals, first - 1, first - 1);
      } else {
        AskedAfter(signals, k, first - 1);
        InVainFrom(signals, first - 1, k);
      }
    }
  }

  lemma {:induction false} NotAskedBefore(signals: Signals, k: nat, j: nat)
    requires !AskedBy(signals, k) && j <= k
    ensures !AskedBy(signals, j)
  {
    if j < k {
      NotAskedBefore(signals, k - 1, j);
    }
  }

  lemma {:induction false} AskedAfter(signals: Signals, k: nat, j: nat)
    requires AskedBy(signals, k) && k <= j
    ensures AskedBy(signals, j)
  {
    if k < j {
      AskedAfter(signals, k, j - 1);
    }
  }

  /** A signal in the first fill. */
  method FillSignal(jobs: nat, signalled: bool, stopEvent0: bool, ghost trace0: Trace, ghost futures: map<nat, Job>,
                    ghost next: nat)
    returns (stopEvent: bool, ghost trace: Trace)
    requires Tracks(jobs, trace0, trace0, futures, next, []) && stopEvent0 == IsFlagged(trace0) && !HasStopped(trace0)
    ensures stopEvent == (stopEvent0 || signalled) == IsFlagged(trace)
    ensures Tracks(jobs, trace, trace, futures, next, []) && Jobs(trace) == Jobs(trace0)
    ensures !HasStopped(trace) && Late(trace) == Late(trace0)
  {
    hide Tracks, Jobs, HasStopped, IsFlagged, Late;
    stopEvent, trace := stopEvent0, trace0;
    if signalled {
      FillTracked(jobs, trace0, futures, next, [], Request);
      stopEvent, trace := true, trace0 + [Request];
    }
  }

  /** The first fill: as many jobs as fit. It does not look at the stop flag. */
  method FirstFill(jobs: nat, pending: seq<Seed>, signals: Signals)
    returns (futures: map<nat, Job>, next: nat, stopEvent: bool, ghost trace: Trace)
    ensures Tracks(jobs, trace, trace, futures, next, []) && next == |futures| == Min(jobs, |pending|)
    ensures Jobs(trace) == Plain(pending[..next]) && !HasStopped(trace)
    ensures stopEvent == IsFlagged(trace) && Late(trace) == InVain(signals, next)
    ensures stopEvent <==> if next == 0 then DuringWait in signals else AskedBy(signals, next - 1)
  {
    hide Tracks, Jobs, HasStopped, IsFlagged, Late, Plain;
    futures, next, trace := map[], 0, [];
    NothingYet(jobs);
    NothingPlain(pending, map[]);
    NotStoppedYet();
    stopEvent, trace := FillSignal(jobs, DuringWait in signals, false, trace, futures, next);
    while |futures| < jobs && next < |pending|
      invariant Tracks(jobs, trace, trace, futures, next, []) && next == |futures| <= Min(jobs, |pending|)
      invariant Jobs(trace) == Plain(pending[..next]) && !HasStopped(trace)
      invariant stopEvent == IsFlagged(trace) && Late(trace) == InVain(signals, next)
      invariant stopEvent <==> if next == 0 then DuringWait in signals else AskedBy(signals, next - 1)
      decreases |pending| - next
    {
      var job := Job(pending[next], false);
      stopEvent, trace :=
        FillSignal(jobs, BeforeLook(next) in signals || AfterLook(next) in signals, stopEvent, trace, futures, next);
      FillTracked(jobs, trace, futures, next, [], Submit(job));
      PlainNext(pending, next);
      futures, trace := futures[next := job], trace + [Submit(job)];
      next := next + 1;
    }
  }

  lemma NotStoppedYet()
    ensures !HasStopped([])
  {
  }

  ghost predicate HasGapSignal(signals: Signals) {
    exists k: nat :: AfterLook(k) in signals
  }

  /** Fills the pool up again unless a stop is asked for. The flag is looked at before each submission. */
  method FillUp(jobs: nat, pending: seq<Seed>, signals: Signals, futures0: map<nat, Job>, next0: nat, stopEvent0: bool,
                ghost fill: Trace, ghost trace0: Trace, ghost rows: seq<Row>)
    returns (futures: map<nat, Job>, next: nat, stopEvent: bool, ghost trace: Trace)
    requires Tracks(jobs, fill, trace0, futures0, next0, rows) && stopEvent0 == IsFlagged(trace0)
    requires next0 <= |pending| && Jobs(trace0) == Plain(pending[..next0])
    ensures Tracks(jobs, fill, trace, futures, next, rows) && stopEvent == IsFlagged(trace)
    ensures next0 <= next <= |pending| && Jobs(trace) == Plain(pending[..next])
    ensures IsFill(Min(jobs - |futures0|, |pending| - next0), signals, NoStopFile, stopEvent0, next - next0, stopEvent,
                   false)
    ensures AddsTickets(futures0, futures, next0, next) && |futures| == |futures0| + next - next0
    ensures GapSince(trace, |fill|) ==> GapSince(trace0, |fill|) || HasGapSignal(signals)
    ensures !stopEvent0 && |futures0| < jobs && next0 < |pending| && BeforeLook(0) !in signals &&
            AfterLook(0) in signals ==>
              GapSince(trace, |fill|)
  {
    hide Tracks, Jobs, HasStopped, IsFlagged, GapSince, Looked, Plain, IsFilling, IsFill, AddsTickets;
    ghost var room := Min(jobs - |futures0|, |pending| - next0);
    futures, next, stopEvent, trace := futures0, next0, stopEvent0, trace0;
    var k: nat := 0;
    StartFilling(signals, NoStopFile, stopEvent0);
    AddsNone(futures0, next0);
    ghost var late := stopEvent;
    while |futures| < jobs && next < |pending|
      invariant Tracks(jobs, fill, trace, futures, next, rows) && stopEvent == IsFlagged(trace)
      invariant next0 <= next <= |pending| && Jobs(trace) == Plain(pending[..next])
      invariant GapSince(trace, |fill|) ==> GapSince(trace0, |fill|) || HasGapSignal(signals)
      invariant next == next0 + k && |futures| == |futures0| + k && (k > 0 ==> |futures| <= jobs)
      invariant AddsTickets(futures0, futures, next0, next)
      invariant IsFilling(signals, NoStopFile, stopEvent0, k, stopEvent) && late == stopEvent
      invariant k == 0 ==> stopEvent == stopEvent0
      invariant k > 0 && !stopEvent0 && BeforeLook(0) !in signals && AfterLook(0) in signals ==> GapSince(trace, |fill|)
      decreases |pending| - next
    {
      stopEvent, trace := SetFlag(jobs, BeforeLook(k) in signals, Request, stopEvent, fill, trace, futures, next, rows);
      trace := LookAtFlag(jobs, stopEvent, fill, trace, futures, next, rows);
      if stopEvent {
        break;
      }
      NextFilling(signals, NoStopFile, stopEvent0, k);
      NewTicket(jobs, fill, trace0, futures0, next0, rows, next);
      AddsNext(futures0, futures, next0, next, Job(pending[next], false));
      stopEvent, trace := SetFlag(jobs, AfterLook(k) in signals, Request, stopEvent, fill, trace, futures, next, rows);
      var job := Job(pending[next], false);
      SubmitTracked(jobs, fill, trace, futures, next, rows, job);
      PlainNext(pending, next);
      futures, trace := futures[next := job], trace + [Submit(job)];
      next := next + 1;
      k := k + 1;
      late := stopEvent;
    }
    EndFilling(room, signals, NoStopFile, stopEvent0, k, late, stopEvent, false);
  }

  lemma NewTicket(jobs: nat, fill: Trace, trace: Trace, futures: map<nat, Job>, next: nat, rows: seq<Row>, n: nat)
    requires Tracks(jobs, fill, trace, futures, next, rows) && next <= n
    ensures n !in futures
  {
    EachRecordedOnce(jobs, trace);
  }

  /** A signal that arrives between a look and a submission of some wake's fill. */
  ghost predicate SomeGapSignal(wakes: seq<Wake>) {
    exists w :: 0 <= w < |wakes| && HasGapSignal(wakes[w].signals)
  }

  /** One turn of the loop: a wait, and, if it brings finished jobs, a fill. */
  method RunTurn(jobs: nat, pending: seq<Seed>, wake: Wake, coverageBatch: nat, sinceMerge0: nat,
                 futures0: map<nat, Job>, next0: nat, rows0: seq<Row>, db0: Results, spare0: Results,
                 stopEvent0: bool, ghost fill: Trace, ghost trace0: Trace, ghost dbBase: Results)
    returns (sinceMerge: nat, futures: map<nat, Job>, next: nat, rows: seq<Row>, db: Results, spare: Results,
             stopEvent: bool, ghost trace: Trace)
    requires Tracks(jobs, fill, trace0, futures0, next0, rows0) && stopEvent0 == IsFlagged(trace0)
    requires next0 <= |pending| && Jobs(trace0) == Plain(pending[..next0]) && futures0 != map[]
    requires db0 == Stored(dbBase, rows0) && spare0 == Remembered(map[], rows0)
    requires stopEvent0 || |futures0| >= jobs || next0 == |pending|
    ensures Tracks(jobs, fill, trace, futures, next, rows) && stopEvent == IsFlagged(trace)
    ensures next0 <= next <= |pending| && Jobs(trace) == Plain(pending[..next])
    ensures db == Stored(dbBase, rows) && spare == Remembered(map[], rows)
    ensures stopEvent || |futures| >= jobs || next == |pending|
    ensures GapSince(trace, |fill|) ==> GapSince(trace0, |fill|) || HasGapSignal(wake.signals)
    ensures Follows(jobs, Only(|pending|), wake, coverageBatch,
                    Stage(futures0, rows0, next0, sinceMerge0, stopEvent0),
                    Stage(futures, rows, next, sinceMerge, stopEvent), false)
  {
    hide Tracks, Jobs, HasStopped, IsFlagged, Late, GapSince, Stored, Remembered, Plain, Follows, Wakes, Fills, Landing,
         AddsTickets, IsFill, HasGapSignal;
    ghost var s := Stage(futures0, rows0, next0, sinceMerge0, stopEvent0);
    var idle;
    idle, sinceMerge, futures, rows, db, spare, stopEvent, trace :=
      TakeWake(jobs, wake, coverageBatch, sinceMerge0, futures0, rows0, db0, spare0, stopEvent0, fill, trace0, next0,
               dbBase, map[]);
    next := next0;
    ghost var m := Stage(futures, rows, next, sinceMerge, stopEvent);
    if idle {
      IdleFollows(jobs, Only(|pending|), wake, coverageBatch, s, m);
      return;
    }
    futures, next, stopEvent, trace :=
      FillUp(jobs, pending, wake.signals, futures, next, stopEvent, fill, trace, rows);
    ghost var t := Stage(futures, rows, next, sinceMerge, stopEvent);
    FillIsFills(Min(jobs - |m.futures|, |pending| - m.next), wake.signals, NoStopFile, m, t, false);
    FillFollows(jobs, Only(|pending|), wake, coverageBatch, s, m, t, false);
    FilledUp(Min(jobs - |m.futures|, |pending| - m.next), wake.signals, NoStopFile, m.stopEvent, next - next0,
             stopEvent, false);
  }

  lemma FilledUp(room: int, signals: Signals, stopFile: nat -> bool, stopEvent: bool, n: nat, stop: bool, drawing: bool)
    requires IsFill(room, signals, stopFile, stopEvent, n, stop, drawing)
    ensures drawing || stop || n >= room
  {
  }

  /** The first stage is what the first fill leaves, the last one what the run ends with. */
  ghost predicate BeginsAndEnds(fillSignals: Signals, stages: seq<Stage>, fill: Trace, trace: Trace,
                                futures: map<nat, Job>, rows: seq<Row>, stopEvent: bool)
  {
    && stages != []
    && var s, t, first := stages[0], stages[|stages| - 1], |Jobs(fill)|;
       && s.futures == InFlight(fill) && s.next == first && s.rows == [] && s.sinceMerge == 0
       && (s.stopEvent <==> if first == 0 then DuringWait in fillSignals else AskedBy(fillSignals, first - 1))
       && t == Stage(futures, rows, |Jobs(trace)|, t.sinceMerge, stopEvent)
  }

  /** Runs the pending seeds, `jobs` at a time. The result describes the run as far as the given wakes take it; it is
      over when nothing is in flight. The events of `fill` are those of the first fill. */
  method RunSeeds(jobs: nat, pending: seq<Seed>, coverageBatch: nat, fillSignals: Signals, wakes: seq<Wake>,
                  db0: Results)
    returns (futures: map<nat, Job>, rows: seq<Row>, db: Results, stopEvent: bool, ghost fill: Trace,
             ghost trace: Trace, ghost stages: seq<Stage>)
    requires jobs > 0
    ensures |futures| <= jobs && db == Stored(db0, rows)
    ensures futures == map[] && !stopEvent ==> |rows| == |pending|
    ensures IsFiniteRun(jobs, pending, db0, trace, futures, rows, db)
    ensures stopEvent == IsFlagged(trace)
    ensures futures == map[] && !stopEvent ==> |Jobs(trace)| == |pending|
    ensures fill <= trace && GuardedFrom(trace, |fill|) && |Jobs(fill)| == Min(jobs, |pending|) <= |Jobs(trace)|
    ensures Late(fill) == InVain(fillSignals, Min(jobs, |pending|))
    ensures Late(trace) == Late(fill) + if GapSince(trace, |fill|) then 1 else 0
    ensures GapSince(trace, |fill|) ==> SomeGapSignal(wakes)
    ensures AreStages(jobs, Only(|pending|), wakes, coverageBatch, stages, false)
    ensures BeginsAndEnds(fillSignals, stages, fill, trace, futures, rows, stopEvent)
  {
    hide Tracks, Jobs, HasStopped, IsFlagged, Late, GapSince, Stored, Remembered, Plain, Follows, AreTaken, Wakes,
         Fills, AddsTickets, IsFill, AskedBy, SomeGapSignal, HasGapSignal, InFlight, Rows, IsRun, GuardedFrom;
    var spare: Results, next: nat := map[], 0;
    rows, db := [], db0;
    NothingPlain(pending, db0);
    futures, next, stopEvent, fill := FirstFill(jobs, pending, fillSignals);
    trace := fill;
    ghost var first: nat := next;
    FillMeans(jobs, fill, futures, next);
    var sinceMerge: nat, w := 0, 0;
    ghost var s := Stage(futures, rows, next, sinceMerge, stopEvent);
    stages := [s];
    FirstStage(jobs, Only(|pending|), wakes, coverageBatch, s, false);
    while futures != map[] && w < |wakes|
      invariant w <= |wakes| && Tracks(jobs, fill, trace, futures, next, rows) && stopEvent == IsFlagged(trace)
      invariant first <= next <= |pending| && Jobs(trace) == Plain(pending[..next])
      invariant db == Stored(db0, rows) && spare == Remembered(map[], rows)
      invariant stopEvent || |futures| >= jobs || next == |pending|
      invariant GapSince(trace, |fill|) ==> SomeGapSignal(wakes[..w])
      invariant AreTaken(jobs, Only(|pending|), wakes, coverageBatch, stages, false)
      invariant |stages| == w + 1 && stages[0] == s
      invariant stages[w] == Stage(futures, rows, next, sinceMerge, stopEvent)
      decreases |wakes| - w
    {
      GapSignalNext(wakes, w);
      sinceMerge, futures, next, rows, db, spare, stopEvent, trace :=
        RunTurn(jobs, pending, wakes[w], coverageBatch, sinceMerge, futures, next, rows, db, spare, stopEvent, fill,
                trace, db0);
      ghost var t := Stage(futures, rows, next, sinceMerge, stopEvent);
      NextStage(jobs, Only(|pending|), wakes, coverageBatch, stages, t, false);
      stages := stages + [t];
      w := w + 1;
    }
    GapSignalKept(wakes, w);
    TracksMeans(jobs, fill, trace, futures, next, rows);
    AtMostOneLate(jobs, trace, |fill|);
    AtMostJobs(jobs, trace);
    RowsAndFlights(jobs, trace);
  }

  lemma FillMeans(jobs: nat, fill: Trace, futures: map<nat, Job>, next: nat)
    requires Tracks(jobs, fill, fill, futures, next, [])
    ensures |Jobs(fill)| == next && futures == InFlight(fill) && !GapSince(fill, |fill|)
  {
  }

  lemma GapSignalNext(wakes: seq<Wake>, w: nat)
    requires w < |wakes|
    ensures SomeGapSignal(wakes[..w + 1]) <==> SomeGapSignal(wakes[..w]) || HasGapSignal(wakes[w].signals)
  {
    hide HasGapSignal;
    var more, less := wakes[..w + 1], wakes[..w];
    if SomeGapSignal(less) {
      var v :| 0 <= v < |less| && HasGapSignal(less[v].signals);
      assert more[v] == less[v];
    }
    if HasGapSignal(wakes[w].signals) {
      assert more[w] == wakes[w];
    }
    if SomeGapSignal(more) {
      var v :| 0 <= v < |more| && HasGapSignal(more[v].signals);
      assert v < w ==> less[v] == more[v];
    }
  }

  lemma GapSignalKept(wakes: seq<Wake>, w: nat)
    requires w <= |wakes|
    ensures SomeGapSignal(wakes[..w]) ==> SomeGapSignal(wakes)
  {
    hide HasGapSignal;
    if SomeGapSignal(wakes[..w]) {
      var v :| 0 <= v < w && HasGapSignal(wakes[..w][v].signals);
      assert wakes[v] == wakes[..w][v];
    }
  }

  /** For instance, with two jobs a signal after the first submission does not keep the second one back. */
  method SignalInFirstFill(wakes: seq<Wake>) returns (db: Results, ghost fill: Trace, ghost trace: Trace)
    ensures IsRun(2, trace) && |Jobs(trace)| >= 2 && Late(trace) >= 1
    ensures exists i, j :: 0 <= i < j < |trace| && trace[i] == Request && trace[j].Submit?
  {
    hide Jobs, Late;
    var futures, rows, stopEvent;
    ghost var stages;
    futures, rows, db, stopEvent, fill, trace, stages := RunSeeds(2, [7, 8, 9], 1, {BeforeLook(1)}, wakes, map[]);
    InVainFrom({BeforeLook(1)}, 2, 1);
    LateIffAfterRequest(trace);
  }

  /** And a signal between the look and the submission does not keep that submission back. */
  method SignalInGap() returns (futures: map<nat, Job>, ghost trace: Trace)
    ensures IsRun(1, trace) && GuardedFrom(trace, 0) && GapSince(trace, 0) && Late(trace) == 1
  {
    hide Tracks, Late, GapSince;
    var next, stopEvent;
    NothingYet(1);
    NothingPlain([7], map[]);
    futures, next, stopEvent, trace := FillUp(1, [7], {AfterLook(0)}, map[], 0, false, [], [], []);
    TracksMeans(1, [], trace, futures, next, []);
    AtMostOneLate(1, trace, 0);
    assert Late([]) == 0 by { NothingYet(1); }
    assert trace[..0] == [];
  }

  lemma NothingPlain(pending: seq<Seed>, db0: Results)
    ensures Plain(pending[..0]) == [] && Stored(db0, []) == db0
    ensures forall failures :: Remembered(failures, []) == failures
  {
  }

  lemma TracksMeans(jobs: nat, fill: Trace, trace: Trace, futures: map<nat, Job>, next: nat, rows: seq<Row>)
    requires Tracks(jobs, fill, trace, futures, next, rows)
    ensures IsRun(jobs, trace) && futures == InFlight(trace) && next == |Jobs(trace)| && rows == Rows(trace)
    ensures fill <= trace && trace[..|fill|] == fill && GuardedFrom(trace, |fill|)
  {
  }

  /** The seeds of the range that have no result yet. */
  function Pending(start: int, count: nat, completed: set<Seed>): seq<Seed> {
    if count == 0 then []
    else
      var before, seed := Pending(start, count - 1, completed), start + count - 1;
      if seed in completed then before else before + [seed]
  }

  lemma {:induction false} PendingIsRest(start: int, count: nat, completed: set<Seed>)
    ensures forall s :: s in Pending(start, count, completed) <==> start <= s < start + count && s !in completed
    ensures forall i, j :: 0 <= i < j < |Pending(start, count, completed)| ==>
              Pending(start, count, completed)[i] < Pending(start, count, completed)[j]
  {
    if count > 0 {
      PendingIsRest(start, count - 1, completed);
      var before := Pending(start, count - 1, completed);
      assert forall i :: 0 <= i < |before| ==> before[i] in before;
    }
  }

  /** A run that ends without a stop leaves a result for every seed of the range. */
  lemma UnstoppedRunCoversRange(jobs: nat, start: int, count: nat, completed: set<Seed>, db0: Results, trace: Trace,
                                futures: map<nat, Job>, rows: seq<Row>, db: Results)
    requires completed <= db0.Keys
    requires IsFiniteRun(jobs, Pending(start, count, completed), db0, trace, futures, rows, db)
    requires futures == map[] && |Jobs(trace)| == |Pending(start, count, completed)|
    ensures forall s :: start <= s < start + count ==> s in db
    ensures forall t: nat :: t < |Jobs(trace)| ==> Finishes(trace, t) == 1 && IsRecorded(rows, Jobs(trace)[t])
  {
    var pending := Pending(start, count, completed);
    PendingIsRest(start, count, completed);
    StoredKeys(db0, rows);
    EachRecordedOnce(jobs, trace);
    forall t: nat | t < |Jobs(trace)|
      ensures IsRecorded(rows, Jobs(trace)[t])
    {
      LandedIsRecorded(jobs, trace, t);
    }
    forall s | start <= s < start + count
      ensures s in db
    {
      if s !in completed {
        var t :| 0 <= t < |pending| && pending[t] == s;
        assert Jobs(trace)[t] == Job(s, false);
        assert IsRecorded(rows, Jobs(trace)[t]);
      }
    }
  }

  /** `run`: seeds with a result are skipped unless a rerun is asked for. */
  method CommandRun(jobs: nat, start: int, count: nat, rerun: bool, coverageBatch: nat, fillSignals: Signals,
                    wakes: seq<Wake>, db0: Results)
    returns (db: Results, over: bool, stopEvent: bool, ghost fill: Trace, ghost trace: Trace,
             ghost stages: seq<Stage>)
    requires jobs > 0
    ensures IsRun(jobs, trace) && stopEvent == IsFlagged(trace) && db == Stored(db0, Rows(trace))
    ensures over <==> InFlight(trace) == map[]
    ensures over && !stopEvent ==> forall s :: start <= s < start + count ==> s in db
    ensures db0.Keys <= db.Keys
    ensures fill <= trace && GuardedFrom(trace, |fill|)
    ensures var first := Min(jobs, |Pending(start, count, if rerun then {} else db0.Keys)|);
            |Jobs(fill)| == first <= |Jobs(trace)| && Late(fill) == InVain(fillSignals, first)
    ensures Late(trace) == Late(fill) + if GapSince(trace, |fill|) then 1 else 0
    ensures GapSince(trace, |fill|) ==> SomeGapSignal(wakes)
    ensures var pending := Pending(start, count, if rerun then {} else db0.Keys);
            && Jobs(trace) <= Plain(pending)
            && AreStages(jobs, Only(|pending|), wakes, coverageBatch, stages, false)
    ensures BeginsAndEnds(fillSignals, stages, fill, trace, InFlight(trace), Rows(trace), stopEvent)
  {
    hide GuardedFrom, GapSince, SomeGapSignal, IsFlagged, Late, AreStages, AskedBy;
    var completed := if rerun then {} else db0.Keys;
    var pending := Pending(start, count, completed);
    var futures, rows;
    futures, rows, db, stopEvent, fill, trace, stages :=
      RunSeeds(jobs, pending, coverageBatch, fillSignals, wakes, db0);
    over := futures == map[];
    StoredKeys(db0, rows);
    assert forall s <- db0.Keys :: s in db;
    if over && !stopEvent {
      UnstoppedRunCoversRange(jobs, start, count, completed, db0, trace, futures, rows, db);
    }
  }

  // ----- the seed history

  /** Everything that failed is on record as used. */
  predicate HistoryKnows(history: set<Seed>, failures: Results) {
    failures.Keys <= history
  }

  /** The last of the results found for a seed that is a failure. */
  ghost predicate IsLastFailure(found: seq<(Seed, Status)>, seed: Seed, status: Status) {
    exists i :: 0 <= i < |found| && found[i] == (seed, status) && status != Pass &&
      forall j :: i < j < |found| && found[j].0 == seed ==> found[j].1 == Pass
  }

  lemma LastFailureNext(found: seq<(Seed, Status)>, n: nat)
    requires n < |found|
    ensures forall s, status :: IsLastFailure(found[..n], s, status) && !(found[n].0 == s && IsFailure(found[n].1)) ==>
              IsLastFailure(found[..n + 1], s, status)
    ensures IsFailure(found[n].1) ==> IsLastFailure(found[..n + 1], found[n].0, found[n].1)
  {
    var more := found[..n + 1];
    forall s, status | IsLastFailure(found[..n], s, status) && !(found[n].0 == s && IsFailure(found[n].1))
      ensures IsLastFailure(more, s, status)
    {
      var i :| 0 <= i < n && found[..n][i] == (s, status) && status != Pass &&
        forall j :: i < j < n && found[..n][j].0 == s ==> found[..n][j].1 == Pass;
      assert more[i] == (s, status);
      assert forall j :: i < j < n ==> more[j] == found[..n][j];
    }
    assert more[n] == (found[n].0, found[n].1);
  }

  /** Opens the history: seeds found in the cache and in earlier results are added, existing rows stay as they are. */
  method OpenHistory(seeds: set<Seed>, failures: Results, cached: set<Seed>, found: seq<(Seed, Status)>)
    returns (history: set<Seed>, known: Results)
    requires HistoryKnows(seeds, failures)
    ensures HistoryKnows(history, known)
    ensures history == seeds + cached + (set row | row in found :: row.0)
    ensures known.Keys == failures.Keys + (set row | row in found && IsFailure(row.1) :: row.0)
    ensures forall s <- failures :: known[s] == failures[s]
    ensures forall s <- known :: s !in failures ==> IsLastFailure(found, s, known[s])
  {
    var knownSeeds, knownFailures: Results := cached, map[];
    for i := 0 to |found|
      invariant knownSeeds == cached + (set row | row in found[..i] :: row.0)
      invariant knownFailures.Keys == (set row | row in found[..i] && IsFailure(row.1) :: row.0)
      invariant forall s <- knownFailures :: IsLastFailure(found[..i], s, knownFailures[s])
    {
      var (seed, status) := found[i];
      assert found[..i + 1] == found[..i] + [found[i]];
      knownSeeds := knownSeeds + {seed};
      LastFailureNext(found, i);
      if IsFailure(status) {
        knownFailures := knownFailures[seed := status];
      }
    }
    assert found[..|found|] == found;
    history := seeds + knownSeeds;
    known := knownFailures + failures;
  }

  /** A random seed is one of 1 to 2^31 - 1. */
  predicate AreDraws(draws: seq<Seed>) {
    forall i :: 0 <= i < |draws| ==> 1 <= draws[i] <= 0x7fff_ffff
  }

  /** Draws until a seed is new to the history, and reserves it. Without such a draw the call is still drawing. */
  method ReserveRandomSeed(history0: set<Seed>, draws: seq<Seed>, cursor0: nat)
    returns (reserved: bool, seed: Seed, history: set<Seed>, cursor: nat)
    requires cursor0 <= |draws| && AreDraws(draws)
    ensures cursor0 <= cursor <= |draws|
    ensures reserved ==> seed !in history0 && history == history0 + {seed} && 1 <= seed <= 0x7fff_ffff
    ensures reserved ==> cursor > cursor0 && draws[cursor - 1] == seed
    ensures forall i :: cursor0 <= i < (if reserved then cursor - 1 else cursor) ==> draws[i] in history0
    ensures !reserved ==> cursor == |draws| && history == history0
  {
    reserved, seed, history, cursor := false, 0, history0, cursor0;
    while cursor < |draws|
      invariant cursor0 <= cursor <= |draws|
      invariant forall i :: cursor0 <= i < cursor ==> draws[i] in history0
    {
      seed := draws[cursor];
      cursor := cursor + 1;
      if seed !in history {
        history := history + {seed};
        return true, seed, history, cursor;
      }
    }
  }

  // ----- the continuous run

  ghost predicate DistinctSeeds(jobs: seq<Job>) {
    forall i, j :: 0 <= i < j < |jobs| ==> jobs[i].seed != jobs[j].seed
  }

  /** First the permanent seeds are replayed in order, then come seeds the history did not know; all of them are in
      the history now. */
  ghost predicate AreReserved(jobs: seq<Job>, permanent: seq<Seed>, history0: set<Seed>, history: set<Seed>) {
    && history0 <= history
    && (forall i :: 0 <= i < |jobs| && i < |permanent| ==> jobs[i] == Job(permanent[i], true))
    && (forall i :: |permanent| <= i < |jobs| ==>
          !jobs[i].replay && jobs[i].seed !in history0 && jobs[i].seed in history)
    && (forall s <- history :: s in history0 || exists i :: |permanent| <= i < |jobs| && jobs[i].seed == s)
  }

  /** The failure table at the start, in some order. */
  predicate AreFailures(permanent: seq<Seed>, failures: Results) {
    && (forall i, j :: 0 <= i < j < |permanent| ==> permanent[i] != permanent[j])
    && (forall i :: 0 <= i < |permanent| ==> permanent[i] in failures)
    && (forall s <- failures :: s in permanent)
  }

  lemma ReserveReplay(jobs: seq<Job>, permanent: seq<Seed>, failures0: Results, history0: set<Seed>, history: set<Seed>)
    requires AreReserved(jobs, permanent, history0, history) && DistinctSeeds(jobs) && |jobs| < |permanent|
    requires AreFailures(permanent, failures0)
    ensures AreReserved(jobs + [Job(permanent[|jobs|], true)], permanent, history0, history)
    ensures DistinctSeeds(jobs + [Job(permanent[|jobs|], true)])
  {
  }

  lemma ReservedAreKnown(jobs: seq<Job>, permanent: seq<Seed>, failures0: Results, history0: set<Seed>,
                         history: set<Seed>)
    requires AreReserved(jobs, permanent, history0, history)
    requires AreFailures(permanent, failures0) && HistoryKnows(history0, failures0)
    ensures forall i :: 0 <= i < |jobs| ==> jobs[i].seed in history
  {
    forall i | 0 <= i < |jobs|
      ensures jobs[i].seed in history
    {
      if i < |permanent| {
        assert permanent[i] in failures0.Keys;
      }
    }
  }

  lemma ReserveFresh(jobs: seq<Job>, permanent: seq<Seed>, failures0: Results, history0: set<Seed>, history: set<Seed>,
                     seed: Seed)
    requires AreReserved(jobs, permanent, history0, history) && DistinctSeeds(jobs) && |jobs| >= |permanent|
    requires AreFailures(permanent, failures0) && HistoryKnows(history0, failures0) && seed !in history
    ensures AreReserved(jobs + [Job(seed, false)], permanent, history0, history + {seed})
    ensures DistinctSeeds(jobs + [Job(seed, false)])
  {
    var more := jobs + [Job(seed, false)];
    ReservedAreKnown(jobs, permanent, failures0, history0, history);
    forall s | s in history + {seed} && s !in history0
      ensures exists i :: |permanent| <= i < |more| && more[i].seed == s
    {
      if s == seed {
        assert more[|jobs|].seed == s;
      } else {
        var i :| |permanent| <= i < |jobs| && jobs[i].seed == s;
        assert more[i].seed == s;
      }
    }
  }

  lemma NothingReserved(permanent: seq<Seed>, history0: set<Seed>)
    ensures AreReserved([], permanent, history0, history0) && DistinctSeeds([])
  {
  }

  /** Every failing row's seed is in the failure table, and the table stays within the history. */
  lemma FailuresStayKnown(jobs: nat, trace: Trace, permanent: seq<Seed>, failures0: Results, history0: set<Seed>,
                          history: set<Seed>)
    requires IsRun(jobs, trace) && AreReserved(Jobs(trace), permanent, history0, history)
    requires AreFailures(permanent, failures0) && HistoryKnows(history0, failures0)
    ensures HistoryKnows(history, Remembered(failures0, Rows(trace)))
  {
    var rows, failures := Rows(trace), Remembered(failures0, Rows(trace));
    RememberedKeys(failures0, rows);
    RowsAreSubmitted(jobs, trace);
    ReservedAreKnown(Jobs(trace), permanent, failures0, history0, history);
    forall s | s in failures
      ensures s in history
    {
      if s in failures0 {
        assert s in failures0.Keys;
      } else {
        var i :| 0 <= i < |rows| && rows[i].job.seed == s && (rows[i].status != Pass || rows[i].job.replay);
        assert rows[i].job in Jobs(trace);
      }
    }
  }

  /** The draws that were new when they were made. */
  ghost function FreshOf(draws: seq<Seed>, history: set<Seed>): seq<Seed> {
    if draws == [] then []
    else
      var before, s := FreshOf(draws[..|draws| - 1], history), draws[|draws| - 1];
      if s in history || s in before then before else before + [s]
  }

  /** The seeds submitted after the permanent ones are the fresh ones drawn, in order, and these are what the history
      has gained. */
  ghost predicate AreDrawn(jobs: seq<Job>, permanent: seq<Seed>, draws: seq<Seed>, history0: set<Seed>,
                           history: set<Seed>)
  {
    var drawn := FreshOf(draws, history0);
    && |drawn| == Max(0, |jobs| - |permanent|)
    && (forall i :: 0 <= i < |drawn| ==> jobs[|permanent| + i] == Job(drawn[i], false))
    && (forall s :: s in history <==> s in history0 || s in drawn)
  }

  lemma NothingDrawn(permanent: seq<Seed>, history0: set<Seed>)
    ensures AreDrawn([], permanent, [], history0, history0)
  {
  }

  lemma ReplayIsNotDrawn(jobs: seq<Job>, permanent: seq<Seed>, draws: seq<Seed>, history0: set<Seed>,
                         history: set<Seed>, job: Job)
    requires |jobs| < |permanent|
    ensures AreDrawn(jobs, permanent, draws, history0, history) ==>
              AreDrawn(jobs + [job], permanent, draws, history0, history)
  {
  }

  /** Draws that are known add nothing. */
  lemma {:induction false} KnownDraws(draws: seq<Seed>, start: nat, end: nat, history0: set<Seed>)
    requires start <= end <= |draws|
    requires forall i :: start <= i < end ==> draws[i] in history0 || draws[i] in FreshOf(draws[..start], history0)
    ensures FreshOf(draws[..end], history0) == FreshOf(draws[..start], history0)
    decreases end
  {
    if start < end {
      KnownDraws(draws, start, end - 1, history0);
      assert draws[..end][..end - 1] == draws[..end - 1];
    }
  }

  lemma NextDrawn(jobs: seq<Job>, permanent: seq<Seed>, draws: seq<Seed>, start: nat, end: nat, history0: set<Seed>,
                  history: set<Seed>, reserved: bool, seed: Seed)
    requires start <= end <= |draws| && |jobs| >= |permanent|
    requires forall i :: start <= i < (if reserved then end - 1 else end) ==> draws[i] in history
    requires reserved ==> start < end && draws[end - 1] == seed && seed !in history
    ensures AreDrawn(jobs, permanent, draws[..start], history0, history) ==>
              AreDrawn(if reserved then jobs + [Job(seed, false)] else jobs, permanent, draws[..end], history0,
                       if reserved then history + {seed} else history)
  {
    if AreDrawn(jobs, permanent, draws[..start], history0, history) {
      var last: nat := if reserved then end - 1 else end;
      var drawn := FreshOf(draws[..start], history0);
      assert forall s :: s in history <==> s in history0 || s in drawn;
      forall i | start <= i < last
        ensures draws[i] in history0 || draws[i] in drawn
      {
        assert draws[i] in history;
      }
      KnownDraws(draws, start, last, history0);
      if reserved {
        assert draws[..end][..end - 1] == draws[..end - 1];
      }
    }
  }

  /** The next permanent seed, or a fresh one. */
  method NextJob(permanent: seq<Seed>, next: nat, history0: set<Seed>, draws: seq<Seed>, cursor0: nat,
                 ghost submitted: seq<Job>, ghost before: set<Seed>, ghost failures0: Results)
    returns (reserved: bool, job: Job, history: set<Seed>, cursor: nat)
    requires cursor0 <= |draws| && AreDraws(draws) && next == |submitted|
    requires AreReserved(submitted, permanent, before, history0) && DistinctSeeds(submitted)
    requires AreFailures(permanent, failures0) && HistoryKnows(before, failures0)
    ensures cursor0 <= cursor <= |draws|
    ensures reserved ==> AreReserved(submitted + [job], permanent, before, history) && DistinctSeeds(submitted + [job])
    ensures !reserved ==> history == history0 && next >= |permanent| && cursor == |draws|
    ensures AreDrawn(submitted, permanent, draws[..cursor0], before, history0) ==>
              AreDrawn(if reserved then submitted + [job] else submitted, permanent, draws[..cursor], before, history)
  {
    hide AreReserved, DistinctSeeds, AreDrawn;
    if next < |permanent| {
      ReplayIsNotDrawn(submitted, permanent, draws[..cursor0], before, history0, Job(permanent[next], true));
      ReserveReplay(submitted, permanent, failures0, before, history0);
      return true, Job(permanent[next], true), history0, cursor0;
    }
    var seed;
    reserved, seed, history, cursor := ReserveRandomSeed(history0, draws, cursor0);
    job := Job(seed, false);
    if reserved {
      ReserveFresh(submitted, permanent, failures0, before, history0, seed);
    }
    NextDrawn(submitted, permanent, draws, cursor0, cursor, before, history0, reserved, seed);
  }

  ghost predicate IsContinuousRun(jobs: nat, permanent: seq<Seed>, history0: set<Seed>, db0: Results,
                                  failures0: Results, trace: Trace, futures: map<nat, Job>, rows: seq<Row>, db: Results,
                                  failures: Results, history: set<Seed>)
  {
    && IsRun(jobs, trace) && futures == InFlight(trace) && rows == Rows(trace)
    && db == Stored(db0, rows) && failures == Remembered(failures0, rows)
    && AreReserved(Jobs(trace), permanent, history0, history) && DistinctSeeds(Jobs(trace))
    && HistoryKnows(history, failures)
  }

  /** Looks at the stop file and at the flag. */
  method LookForStop(jobs: nat, signalled: bool, stopFile: bool, stopEvent0: bool, ghost trace0: Trace,
                     ghost futures: map<nat, Job>, ghost next: nat, ghost rows: seq<Row>)
    returns (stopEvent: bool, ghost trace: Trace)
    requires Tracks(jobs, [], trace0, futures, next, rows) && stopEvent0 == IsFlagged(trace0)
    ensures Tracks(jobs, [], trace, futures, next, rows) && Jobs(trace) == Jobs(trace0)
    ensures stopEvent == (stopEvent0 || signalled || stopFile) == IsFlagged(trace)
    ensures GapSince(trace, 0) == GapSince(trace0, 0)
    ensures !stopEvent ==> Looked(trace) && !HasStopped(trace)
  {
    hide Tracks, Jobs, HasStopped, IsFlagged, GapSince, Looked;
    stopEvent, trace := SetFlag(jobs, signalled, Request, stopEvent0, [], trace0, futures, next, rows);
    stopEvent, trace := SetFlag(jobs, stopFile, Stop, stopEvent, [], trace, futures, next, rows);
    trace := LookAtFlag(jobs, stopEvent, [], trace, futures, next, rows);
  }

  /** Submits the next job, if one comes; a signal may arrive while its seed is reserved. */
  method SubmitNext(jobs: nat, permanent: seq<Seed>, draws: seq<Seed>, signalled: bool, futures0: map<nat, Job>,
                    next0: nat, history0: set<Seed>, cursor0: nat, ghost trace0: Trace, ghost rows: seq<Row>,
                    ghost before: set<Seed>, ghost failures0: Results)
    returns (submitted: bool, futures: map<nat, Job>, next: nat, history: set<Seed>, cursor: nat, stopEvent: bool,
             ghost trace: Trace, ghost job: Job)
    requires Tracks(jobs, [], trace0, futures0, next0, rows) && |futures0| < jobs
    requires Looked(trace0) && !HasStopped(trace0) && !IsFlagged(trace0)
    requires cursor0 <= |draws| && AreDraws(draws)
    requires AreReserved(Jobs(trace0), permanent, before, history0) && DistinctSeeds(Jobs(trace0))
    requires AreFailures(permanent, failures0) && HistoryKnows(before, failures0)
    ensures Tracks(jobs, [], trace, futures, next, rows) && stopEvent == IsFlagged(trace)
    ensures AreReserved(Jobs(trace), permanent, before, history) && DistinctSeeds(Jobs(trace))
    ensures AreDrawn(Jobs(trace0), permanent, draws[..cursor0], before, history0) && cursor0 <= cursor <= |draws| ==>
              AreDrawn(Jobs(trace), permanent, draws[..cursor], before, history)
    ensures cursor0 <= cursor <= |draws|
    ensures submitted ==> futures == futures0[next0 := job] && |futures| == |futures0| + 1 && next == next0 + 1
    ensures submitted ==> stopEvent == signalled
    ensures !submitted ==> futures == futures0 && next == next0 >= |permanent| && cursor == |draws| && !stopEvent
    ensures GapSince(trace, 0) ==> GapSince(trace0, 0) || signalled
  {
    hide Tracks, Jobs, HasStopped, IsFlagged, GapSince, Looked, AreReserved, DistinctSeeds, AreFailures, AreDrawn;
    TracksMeans(jobs, [], trace0, futures0, next0, rows);
    futures, next, stopEvent, trace := futures0, next0, false, trace0;
    var taken;
    submitted, taken, history, cursor :=
      NextJob(permanent, next0, history0, draws, cursor0, Jobs(trace0), before, failures0);
    job := taken;
    if !submitted {
      return;
    }
    stopEvent, trace := SetFlag(jobs, signalled, Request, false, [], trace0, futures0, next0, rows);
    SubmitTracked(jobs, [], trace, futures0, next0, rows, taken);
    SubmittedInGap(trace0, trace, signalled);
    futures, trace := futures0[next0 := taken], trace + [Submit(taken)];
    next := next0 + 1;
  }

  lemma SubmittedInGap(trace0: Trace, trace: Trace, signalled: bool)
    requires Looked(trace0) && !IsFlagged(trace0)
    requires trace == if signalled then trace0 + [Request] else trace0
    ensures trace != [] && (trace[|trace| - 1] == Request ==> signalled)
  {
  }

  /** Fills the pool up to `jobs` unless a stop is asked for. Before the k-th look there may be a stop file; the fresh
      seed is drawn between look and submission. */
  method Refill(jobs: nat, permanent: seq<Seed>, draws: seq<Seed>, stopFile: nat -> bool, signals: Signals,
                futures0: map<nat, Job>, next0: nat, history0: set<Seed>, cursor0: nat, stopEvent0: bool,
                ghost trace0: Trace, ghost rows: seq<Row>, ghost before: set<Seed>, ghost failures0: Results)
    returns (drawing: bool, futures: map<nat, Job>, next: nat, history: set<Seed>, cursor: nat, stopEvent: bool,
             ghost trace: Trace)
    requires Tracks(jobs, [], trace0, futures0, next0, rows) && stopEvent0 == IsFlagged(trace0) && |futures0| <= jobs
    requires cursor0 <= |draws| && AreDraws(draws)
    requires AreReserved(Jobs(trace0), permanent, before, history0) && DistinctSeeds(Jobs(trace0))
    requires AreFailures(permanent, failures0) && HistoryKnows(before, failures0)
    requires AreDrawn(Jobs(trace0), permanent, draws[..cursor0], before, history0)
    ensures Tracks(jobs, [], trace, futures, next, rows) && stopEvent == IsFlagged(trace)
    ensures AreReserved(Jobs(trace), permanent, before, history) && DistinctSeeds(Jobs(trace))
    ensures cursor0 <= cursor <= |draws| && (drawing ==> next >= |permanent| && cursor == |draws|)
    ensures AreDrawn(Jobs(trace), permanent, draws[..cursor], before, history)
    ensures next0 <= next && |futures| == |futures0| + next - next0 && AddsTickets(futures0, futures, next0, next)
    ensures IsFill(jobs - |futures0|, signals, stopFile, stopEvent0, next - next0, stopEvent, drawing)
    ensures GapSince(trace, 0) ==> GapSince(trace0, 0) || HasGapSignal(signals)
  {
    hide Tracks, Jobs, HasStopped, IsFlagged, GapSince, Looked, AreReserved, DistinctSeeds, AreFailures, AreDrawn,
         IsFilling, IsFill, AddsTickets;
    drawing, futures, next, history, cursor, stopEvent, trace :=
      false, futures0, next0, history0, cursor0, stopEvent0, trace0;
    var k: nat := 0;
    StartFilling(signals, stopFile, stopEvent0);
    AddsNone(futures0, next0);
    ghost var late := stopEvent;
    while |futures| < jobs
      invariant Tracks(jobs, [], trace, futures, next, rows) && stopEvent == IsFlagged(trace)
      invariant AreReserved(Jobs(trace), permanent, before, history) && DistinctSeeds(Jobs(trace))
      invariant cursor0 <= cursor <= |draws| && AreDrawn(Jobs(trace), permanent, draws[..cursor], before, history)
      invariant next == next0 + k && |futures| == |futures0| + k <= jobs && AddsTickets(futures0, futures, next0, next)
      invariant IsFilling(signals, stopFile, stopEvent0, k, stopEvent) && late == stopEvent
      invariant GapSince(trace, 0) ==> GapSince(trace0, 0) || HasGapSignal(signals)
      decreases jobs - |futures|
    {
      stopEvent, trace :=
        LookForStop(jobs, BeforeLook(k) in signals, stopFile(k), stopEvent, trace, futures, next, rows);
      if stopEvent {
        break;
      }
      NextFilling(signals, stopFile, stopEvent0, k);
      NewTicket(jobs, [], trace0, futures0, next0, rows, next);
      ghost var known := futures;
      ghost var job;
      var submitted;
      submitted, futures, next, history, cursor, stopEvent, trace, job :=
        SubmitNext(jobs, permanent, draws, AfterLook(k) in signals, futures, next, history, cursor, trace, rows, before,
                   failures0);
      if !submitted {
        drawing := true;
        break;
      }
      AddsNext(futures0, known, next0, next - 1, job);
      k := k + 1;
      late := stopEvent;
    }
    EndFilling(jobs - |futures0|, signals, stopFile, stopEvent0, k, late, stopEvent, drawing);
  }

  /** One turn of the continuous loop. */
  method ContinuousTurn(jobs: nat, permanent: seq<Seed>, draws: seq<Seed>, wake: Wake, coverageBatch: nat,
                        sinceMerge0: nat, futures0: map<nat, Job>, next0: nat, rows0: seq<Row>, db0: Results,
                        failures0: Results, history0: set<Seed>, cursor0: nat, stopEvent0: bool, ghost trace0: Trace,
                        ghost dbBase: Results, ghost failuresBase: Results, ghost before: set<Seed>)
    returns (drawing: bool, sinceMerge: nat, futures: map<nat, Job>, next: nat, rows: seq<Row>, db: Results,
             failures: Results, history: set<Seed>, cursor: nat, stopEvent: bool, ghost trace: Trace)
    requires Tracks(jobs, [], trace0, futures0, next0, rows0) && stopEvent0 == IsFlagged(trace0) && futures0 != map[]
    requires cursor0 <= |draws| && AreDraws(draws)
    requires AreReserved(Jobs(trace0), permanent, before, history0) && DistinctSeeds(Jobs(trace0))
    requires AreFailures(permanent, failuresBase) && HistoryKnows(before, failuresBase)
    requires AreDrawn(Jobs(trace0), permanent, draws[..cursor0], before, history0)
    requires db0 == Stored(dbBase, rows0) && failures0 == Remembered(failuresBase, rows0)
    requires stopEvent0 || |futures0| >= jobs
    ensures Tracks(jobs, [], trace, futures, next, rows) && stopEvent == IsFlagged(trace)
    ensures AreReserved(Jobs(trace), permanent, before, history) && DistinctSeeds(Jobs(trace))
    ensures cursor0 <= cursor <= |draws| && (drawing ==> next >= |permanent| && cursor == |draws|)
    ensures AreDrawn(Jobs(trace), permanent, draws[..cursor], before, history)
    ensures db == Stored(dbBase, rows) && failures == Remembered(failuresBase, rows)
    ensures drawing || stopEvent || |futures| >= jobs
    ensures GapSince(trace, 0) ==> GapSince(trace0, 0) || HasGapSignal(wake.signals)
    ensures Follows(jobs, Endless, wake, coverageBatch, Stage(futures0, rows0, next0, sinceMerge0, stopEvent0),
                    Stage(futures, rows, next, sinceMerge, stopEvent), drawing)
  {
    hide Tracks, Jobs, HasStopped, IsFlagged, Late, GapSince, Stored, Remembered, AreReserved, DistinctSeeds,
         AreFailures, AreDrawn, Follows, Wakes, Fills, Landing, AddsTickets, IsFill, HasGapSignal;
    ghost var s := Stage(futures0, rows0, next0, sinceMerge0, stopEvent0);
    drawing, next, history, cursor := false, next0, history0, cursor0;
    var idle;
    idle, sinceMerge, futures, rows, db, failures, stopEvent, trace :=
      TakeWake(jobs, wake, coverageBatch, sinceMerge0, futures0, rows0, db0, failures0, stopEvent0, [], trace0, next0,
               dbBase, failuresBase);
    ghost var m := Stage(futures, rows, next, sinceMerge, stopEvent);
    if idle {
      IdleFollows(jobs, Endless, wake, coverageBatch, s, m);
      return;
    }
    TracksAtMostJobs(jobs, [], trace, futures, next, rows);
    drawing, futures, next, history, cursor, stopEvent, trace :=
      Refill(jobs, permanent, draws, NoStopFile, wake.signals, futures, next, history, cursor, stopEvent, trace, rows,
             before, failuresBase);
    ghost var t := Stage(futures, rows, next, sinceMerge, stopEvent);
    FillIsFills(jobs - |m.futures|, wake.signals, NoStopFile, m, t, drawing);
    FillFollows(jobs, Endless, wake, coverageBatch, s, m, t, drawing);
    FilledUp(jobs - |m.futures|, wake.signals, NoStopFile, m.stopEvent, next - next0, stopEvent, drawing);
  }

  lemma TracksAtMostJobs(jobs: nat, fill: Trace, trace: Trace, futures: map<nat, Job>, next: nat, rows: seq<Row>)
    requires Tracks(jobs, fill, trace, futures, next, rows)
    ensures |futures| <= jobs
  {
    AtMostJobs(jobs, trace);
  }

  /** The first stage is what the first fill leaves, the last one what the run ends with. */
  ghost predicate RunsBetween(jobs: nat, stopFile: nat -> bool, fillSignals: Signals, stages: seq<Stage>, trace: Trace,
                              futures: map<nat, Job>, rows: seq<Row>, stopEvent: bool, drawing: bool)
  {
    && stages != []
    && var s, t := stages[0], stages[|stages| - 1];
       && s.rows == [] && s.sinceMerge == 0 && AddsTickets(map[], s.futures, 0, s.next)
       && IsFill(jobs, fillSignals, stopFile, DuringWait in fillSignals, s.next, s.stopEvent, drawing && |stages| == 1)
       && t == Stage(futures, rows, |Jobs(trace)|, t.sinceMerge, stopEvent)
  }

  /** Replays the permanent failures, then runs fresh seeds until a stop is asked for. The result describes the run
      as far as the given wakes and draws take it. */
  method CommandContinuous(jobs: nat, permanent: seq<Seed>, coverageBatch: nat, stopFile: nat -> bool,
                           fillSignals: Signals, wakes: seq<Wake>, draws: seq<Seed>, history0: set<Seed>, db0: Results,
                           failures0: Results)
    returns (futures: map<nat, Job>, rows: seq<Row>, db: Results, failures: Results, history: set<Seed>, cursor: nat,
             stopEvent: bool, drawing: bool, ghost trace: Trace, ghost stages: seq<Stage>)
    requires jobs > 0 && AreDraws(draws)
    requires HistoryKnows(history0, failures0) && AreFailures(permanent, failures0)
    ensures IsContinuousRun(jobs, permanent, history0, db0, failures0, trace, futures, rows, db, failures, history)
    ensures |futures| <= jobs && HistoryKnows(history, failures) && failures0.Keys <= failures.Keys
    ensures stopEvent == IsFlagged(trace) && GuardedFrom(trace, 0)
    ensures Late(trace) == if GapSince(trace, 0) then 1 else 0
    ensures GapSince(trace, 0) ==> HasGapSignal(fillSignals) || SomeGapSignal(wakes)
    ensures futures == map[] && !drawing ==> stopEvent
    ensures cursor <= |draws| && AreDrawn(Jobs(trace), permanent, draws[..cursor], history0, history)
    ensures drawing ==> |Jobs(trace)| >= |permanent| && cursor == |draws|
    ensures AreStages(jobs, Endless, wakes, coverageBatch, stages, drawing)
    ensures RunsBetween(jobs, stopFile, fillSignals, stages, trace, futures, rows, stopEvent, drawing)
  {
    hide Tracks, Jobs, HasStopped, IsFlagged, Late, GapSince, Stored, Remembered, AreReserved, DistinctSeeds,
         AreFailures, AreDrawn, Follows, AreTaken, Wakes, Fills, AddsTickets, IsFill, SomeGapSignal, HasGapSignal,
         InFlight, Rows, IsRun, GuardedFrom;
    rows, db, failures, history, drawing, cursor := [], db0, failures0, history0, false, 0;
    var next: nat := 0;
    NothingYet(jobs);
    NothingPlain([], db0);
    NothingReserved(permanent, history0);
    NothingDrawn(permanent, history0);
    assert draws[..0] == [];
    futures := map[];
    stopEvent, trace := SetFlag(jobs, DuringWait in fillSignals, Request, false, [], [], futures, next, rows);
    drawing, futures, next, history, cursor, stopEvent, trace :=
      Refill(jobs, permanent, draws, stopFile, fillSignals, futures, next, history, cursor, stopEvent, trace, rows,
             history0, failures0);
    FilledUp(jobs, fillSignals, stopFile, DuringWait in fillSignals, next, stopEvent, drawing);
    var sinceMerge: nat, w := 0, 0;
    ghost var s := Stage(futures, rows, next, sinceMerge, stopEvent);
    stages := [s];
    FirstStage(jobs, Endless, wakes, coverageBatch, s, drawing);
    while !drawing && futures != map[] && w < |wakes|
      invariant w <= |wakes| && Tracks(jobs, [], trace, futures, next, rows) && stopEvent == IsFlagged(trace)
      invariant cursor <= |draws| && (drawing ==> next >= |permanent| && cursor == |draws|)
      invariant AreReserved(Jobs(trace), permanent, history0, history) && DistinctSeeds(Jobs(trace))
      invariant AreDrawn(Jobs(trace), permanent, draws[..cursor], history0, history)
      invariant db == Stored(db0, rows) && failures == Remembered(failures0, rows)
      invariant drawing || stopEvent || |futures| >= jobs
      invariant GapSince(trace, 0) ==> HasGapSignal(fillSignals) || SomeGapSignal(wakes[..w])
      invariant AreTaken(jobs, Endless, wakes, coverageBatch, stages, drawing)
      invariant |stages| == w + 1 && stages[0] == s
      invariant IsFill(jobs, fillSignals, stopFile, DuringWait in fillSignals, s.next, s.stopEvent, drawing && w == 0)
      invariant stages[w] == Stage(futures, rows, next, sinceMerge, stopEvent)
      decreases |wakes| - w
    {
      GapSignalNext(wakes, w);
      drawing, sinceMerge, futures, next, rows, db, failures, history, cursor, stopEvent, trace :=
        ContinuousTurn(jobs, permanent, draws, wakes[w], coverageBatch, sinceMerge, futures, next, rows, db, failures,
                       history, cursor, stopEvent, trace, db0, failures0, history0);
      ghost var t := Stage(futures, rows, next, sinceMerge, stopEvent);
      NextStage(jobs, Endless, wakes, coverageBatch, stages, t, drawing);
      stages := stages + [t];
      w := w + 1;
    }
    GapSignalKept(wakes, w);
    ContinuousEnds(jobs, permanent, history0, failures0, trace, futures, next, rows, history);
  }

  lemma ContinuousEnds(jobs: nat, permanent: seq<Seed>, history0: set<Seed>, failures0: Results, trace: Trace,
                       futures: map<nat, Job>, next: nat, rows: seq<Row>, history: set<Seed>)
    requires Tracks(jobs, [], trace, futures, next, rows) && AreReserved(Jobs(trace), permanent, history0, history)
    requires AreFailures(permanent, failures0) && HistoryKnows(history0, failures0)
    ensures IsRun(jobs, trace) && futures == InFlight(trace) && next == |Jobs(trace)| && rows == Rows(trace)
    ensures |futures| <= jobs && HistoryKnows(history, Remembered(failures0, rows))
    ensures failures0.Keys <= Remembered(failures0, rows).Keys
    ensures GuardedFrom(trace, 0) && Late(trace) == if GapSince(trace, 0) then 1 else 0
  {
    hide Late, GapSince, Remembered, AreReserved, AreFailures, IsRun, InFlight, Rows, Jobs;
    TracksMeans(jobs, [], trace, futures, next, rows);
    AtMostOneLate(jobs, trace, 0);
    assert trace[..0] == [];
    NothingYet(jobs);
    FailuresStayKnown(jobs, trace, permanent, failures0, history0, history);
    AtMostJobs(jobs, trace);
    RememberedKeys(failures0, rows);
  }

  /** A fresh seed is none of the replayed ones, none in flight and none that any earlier run recorded as failing. */
  lemma FreshIsFresh(jobs: nat, trace: Trace, permanent: seq<Seed>, failures0: Results, history0: set<Seed>,
                     history: set<Seed>, i: nat, j: nat)
    requires IsRun(jobs, trace) && AreReserved(Jobs(trace), permanent, history0, history) && DistinctSeeds(Jobs(trace))
    requires AreFailures(permanent, failures0) && HistoryKnows(history0, failures0)
    requires |permanent| <= i < |Jobs(trace)| && j < |Jobs(trace)| && i != j
    ensures Jobs(trace)[i].seed != Jobs(trace)[j].seed
    ensures Jobs(trace)[i].seed !in failures0 && Jobs(trace)[i].seed !in permanent
    ensures forall t :: t in InFlight(trace) && t != i ==> InFlight(trace)[t].seed != Jobs(trace)[i].seed
  {
    EachRecordedOnce(jobs, trace);
    assert Jobs(trace)[i].seed !in failures0.Keys;
  }
}
