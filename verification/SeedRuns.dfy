/** Runs of the seed scheduler as sequences of events: what every run keeps. */
module SeedRuns {
  type Seed = int

  datatype Status = Pass | Fail | Timeout | Error

  /** `replay` marks a permanent regression seed. */
  datatype Job = Job(seed: Seed, replay: bool)

  datatype Row = Row(job: Job, status: Status)

  /** The loop looks at the stop flag and finds it clear; a job is submitted under the next ticket; a ticket finishes
      and its row is recorded; a signal sets the stop flag; the loop sees that it is to stop. */
  datatype Event = Look | Submit(job: Job) | Finish(ticket: nat, status: Status) | Request | Stop

  type Trace = seq<Event>

  /** The jobs submitted so far, in ticket order. */
  function Jobs(trace: Trace): seq<Job> {
    if trace == [] then []
    else
      var e, before := trace[|trace| - 1], Jobs(trace[..|trace| - 1]);
      if e.Submit? then before + [e.job] else before
  }

  /** The jobs in flight, by ticket. */
  function InFlight(trace: Trace): map<nat, Job> {
    if trace == [] then map[]
    else
      var front, e := trace[..|trace| - 1], trace[|trace| - 1];
      match e
      case Submit(job) => InFlight(front)[|Jobs(front)| := job]
      case Finish(ticket, _) => InFlight(front) - {ticket}
      case _ => InFlight(front)
  }

  /** The rows recorded so far. */
  function Rows(trace: Trace): seq<Row> {
    if trace == [] then []
    else
      var front, e := trace[..|trace| - 1], trace[|trace| - 1];
      if e.Finish? && e.ticket in InFlight(front) then Rows(front) + [Row(InFlight(front)[e.ticket], e.status)]
      else Rows(front)
  }

  predicate HasStopped(trace: Trace) {
    Stop in trace
  }

  predicate HasRequest(trace: Trace) {
    Request in trace
  }

  /** The stop flag is set. */
  predicate IsFlagged(trace: Trace) {
    HasRequest(trace) || HasStopped(trace)
  }

  /** The loop has looked, and nothing but signals has come since. */
  predicate Looked(trace: Trace) {
    trace != [] &&
    var e := trace[|trace| - 1];
    e == Look || (e == Request && Looked(trace[..|trace| - 1]))
  }

  /** From event `from` on, the loop looks before each submission. */
  ghost predicate GuardedFrom(trace: Trace, from: nat) {
    forall i :: from <= i < |trace| && trace[i].Submit? ==> Looked(trace[..i])
  }

  /** A signal has come between a look and the submission that followed it. */
  ghost predicate GapSince(trace: Trace, from: nat) {
    exists i :: from <= i && InGap(trace, i)
  }

  predicate InGap(trace: Trace, i: nat) {
    0 < i < |trace| && trace[i].Submit? && trace[i - 1] == Request
  }

  /** How many jobs were submitted although a signal had asked for a stop. */
  function Late(trace: Trace): nat {
    if trace == [] then 0
    else
      var front, e := trace[..|trace| - 1], trace[|trace| - 1];
      Late(front) + if e.Submit? && HasRequest(front) then 1 else 0
  }

  /** What the scheduler may do next. */
  predicate MayFollow(jobs: nat, trace: Trace, e: Event) {
    match e
    case Look => !IsFlagged(trace)
    case Submit(_) => |InFlight(trace)| < jobs && !HasStopped(trace)
    case Finish(ticket, _) => ticket in InFlight(trace)
    case _ => true
  }

  ghost predicate IsRun(jobs: nat, trace: Trace) {
    trace == [] ||
    (IsRun(jobs, trace[..|trace| - 1]) && MayFollow(jobs, trace[..|trace| - 1], trace[|trace| - 1]))
  }

  lemma Snoc(jobs: nat, trace: Trace, e: Event)
    ensures IsRun(jobs, trace + [e]) <==> IsRun(jobs, trace) && MayFollow(jobs, trace, e)
    ensures Jobs(trace + [e]) == if e.Submit? then Jobs(trace) + [e.job] else Jobs(trace)
    ensures HasStopped(trace + [e]) <==> HasStopped(trace) || e == Stop
    ensures e.Submit? ==> InFlight(trace + [e]) == InFlight(trace)[|Jobs(trace)| := e.job]
    ensures e.Submit? ==> Rows(trace + [e]) == Rows(trace)
    ensures e.Finish? ==> InFlight(trace + [e]) == InFlight(trace) - {e.ticket}
    ensures e.Finish? && e.ticket in InFlight(trace) ==>
              Rows(trace + [e]) == Rows(trace) + [Row(InFlight(trace)[e.ticket], e.status)]
    ensures e in {Look, Request, Stop} ==> InFlight(trace + [e]) == InFlight(trace) && Rows(trace + [e]) == Rows(trace)
    ensures HasRequest(trace + [e]) <==> HasRequest(trace) || e == Request
    ensures Late(trace + [e]) == Late(trace) + if e.Submit? && HasRequest(trace) then 1 else 0
  {
    assert (trace + [e])[..|trace|] == trace;
  }

  lemma GuardedSnoc(trace: Trace, e: Event, from: nat)
    requires from <= |trace| && GuardedFrom(trace, from) && (e.Submit? ==> Looked(trace))
    ensures GuardedFrom(trace + [e], from)
    ensures Looked(trace + [e]) <==> e == Look || (e == Request && Looked(trace))
  {
    hide Looked;
    var more := trace + [e];
    assert more[..|trace|] == trace;
    forall i | from <= i < |more| && more[i].Submit?
      ensures Looked(more[..i])
    {
      assert i < |trace| ==> more[..i] == trace[..i];
    }
    LookedMeans(more);
  }

  lemma LookedMeans(trace: Trace)
    ensures Looked(trace) <==>
            trace != [] &&
            (trace[|trace| - 1] == Look || (trace[|trace| - 1] == Request && Looked(trace[..|trace| - 1])))
  {
  }

  lemma GapSnoc(trace: Trace, e: Event, from: nat)
    requires from <= |trace|
    ensures GapSince(trace + [e], from) <==>
            GapSince(trace, from) || (e.Submit? && trace != [] && trace[|trace| - 1] == Request)
  {
    var more := trace + [e];
    if GapSince(trace, from) {
      var i :| from <= i && InGap(trace, i);
      assert InGap(more, i);
    }
    if e.Submit? && trace != [] && trace[|trace| - 1] == Request {
      assert InGap(more, |trace|);
    }
    if GapSince(more, from) {
      var i :| from <= i && InGap(more, i);
      assert i < |trace| ==> InGap(trace, i);
    }
  }

  lemma {:induction false} PrefixIsRun(jobs: nat, trace: Trace, k: nat)
    requires IsRun(jobs, trace) && k <= |trace|
    ensures IsRun(jobs, trace[..k])
  {
    if k == |trace| {
      assert trace[..k] == trace;
    } else {
      PrefixIsRun(jobs, trace[..|trace| - 1], k);
      assert trace[..|trace| - 1][..k] == trace[..k];
    }
  }

  // ----- safety

  lemma {:induction false} AtMostJobs(jobs: nat, trace: Trace)
    requires IsRun(jobs, trace)
    ensures |InFlight(trace)| <= jobs
  {
    if trace != [] {
      var front, e := trace[..|trace| - 1], trace[|trace| - 1];
      AtMostJobs(jobs, front);
      Counts(InFlight(front), |Jobs(front)|, if e.Submit? then e.job else Job(0, false),
             if e.Finish? then e.ticket else 0);
    }
  }

  lemma Counts(m: map<nat, Job>, added: nat, job: Job, removed: nat)
    ensures |m[added := job]| <= |m| + 1 && |m - {removed}| <= |m|
    ensures added !in m ==> |m[added := job]| == |m| + 1
    ensures removed in m ==> |m - {removed}| == |m| - 1
  {
    assert m[added := job].Keys == m.Keys + {added};
    assert (m - {removed}).Keys == m.Keys - {removed};
  }

  /** At no moment of a run are more than `jobs` jobs in flight. */
  lemma AlwaysAtMostJobs(jobs: nat, trace: Trace, k: nat)
    requires IsRun(jobs, trace) && k <= |trace|
    ensures |InFlight(trace[..k])| <= jobs
  {
    PrefixIsRun(jobs, trace, k);
    AtMostJobs(jobs, trace[..k]);
  }

  /** Nothing is submitted once the stop is seen. */
  lemma {:induction false} StopEndsSubmission(jobs: nat, trace: Trace, i: nat, j: nat)
    requires IsRun(jobs, trace) && i < j < |trace| && trace[i] == Stop
    ensures !trace[j].Submit?
  {
    PrefixIsRun(jobs, trace, j + 1);
    assert trace[..j + 1][..j] == trace[..j];
    assert trace[..j][i] == Stop;
  }

  /** A submission follows a request exactly when some submission is late. */
  lemma {:induction false} LateIffAfterRequest(trace: Trace)
    ensures Late(trace) > 0 <==> exists i, j :: 0 <= i < j < |trace| && trace[i] == Request && trace[j].Submit?
  {
    if trace != [] {
      var front, last := trace[..|trace| - 1], |trace| - 1;
      LateIffAfterRequest(front);
      if Late(front) > 0 {
        var i, j :| 0 <= i < j < |front| && front[i] == Request && front[j].Submit?;
        assert trace[i] == Request && trace[j].Submit?;
      } else if Late(trace) > 0 {
        var i :| 0 <= i < |front| && front[i] == Request;
        assert trace[i] == Request && trace[last].Submit?;
      } else {
        forall i, j | 0 <= i < j < |trace| && trace[i] == Request
          ensures !trace[j].Submit?
        {
          assert front[i] == Request;
          if j < last {
            assert front[j] == trace[j];
          }
        }
      }
    }
  }

  /** A signal that comes after the last look is the last event. */
  lemma {:induction false} LookedThenSignalled(jobs: nat, trace: Trace)
    requires IsRun(jobs, trace) && Looked(trace) && HasRequest(trace)
    ensures trace[|trace| - 1] == Request
  {
    assert trace == trace[..|trace| - 1] + [trace[|trace| - 1]];
  }

  /** Where the loop looks before each submission, at most one job is late, and only one whose signal came between look
      and submission. */
  lemma {:induction false} AtMostOneLate(jobs: nat, trace: Trace, from: nat)
    requires IsRun(jobs, trace) && from <= |trace| && GuardedFrom(trace, from)
    ensures Late(trace) == Late(trace[..from]) + if GapSince(trace, from) then 1 else 0
    ensures GapSince(trace, from) ==> HasRequest(trace) && !Looked(trace)
    decreases |trace|
  {
    if from == |trace| {
      assert trace[..from] == trace;
    } else {
      hide Looked, IsRun, GuardedFrom, GapSince;
      var front, e := trace[..|trace| - 1], trace[|trace| - 1];
      assert trace == front + [e] && front[..from] == trace[..from];
      GuardedFront(trace, from);
      Snoc(jobs, front, e);
      AtMostOneLate(jobs, front, from);
      GapSnoc(front, e, from);
      GuardedSnoc(front, e, from);
      if e.Submit? && HasRequest(front) {
        LookedThenSignalled(jobs, front);
      }
      SignalledNow(front);
    }
  }

  lemma GuardedFront(trace: Trace, from: nat)
    requires from < |trace| && GuardedFrom(trace, from)
    ensures GuardedFrom(trace[..|trace| - 1], from)
    ensures trace[|trace| - 1].Submit? ==> Looked(trace[..|trace| - 1])
  {
    hide Looked;
    var front := trace[..|trace| - 1];
    forall i | from <= i < |front| && front[i].Submit?
      ensures Looked(front[..i])
    {
      assert front[..i] == trace[..i];
    }
  }

  lemma SignalledNow(trace: Trace)
    ensures trace != [] && trace[|trace| - 1] == Request ==> HasRequest(trace)
  {
  }

  // ----- conservation

  function Finishes(trace: Trace, ticket: nat): nat {
    if trace == [] then 0
    else
      var e := trace[|trace| - 1];
      Finishes(trace[..|trace| - 1], ticket) + if e.Finish? && e.ticket == ticket then 1 else 0
  }

  /** Every submitted job is either still in flight, unrecorded, or recorded exactly once; and the flight table
      holds the job that was submitted under the ticket. */
  lemma {:induction false} EachRecordedOnce(jobs: nat, trace: Trace)
    requires IsRun(jobs, trace)
    ensures forall t :: t in InFlight(trace) ==> t < |Jobs(trace)| && InFlight(trace)[t] == Jobs(trace)[t]
    ensures forall t: nat :: Finishes(trace, t) == if t < |Jobs(trace)| && t !in InFlight(trace) then 1 else 0
  {
    if trace != [] {
      var front, e := trace[..|trace| - 1], trace[|trace| - 1];
      EachRecordedOnce(jobs, front);
      forall t: nat
        ensures Finishes(trace, t) == if t < |Jobs(trace)| && t !in InFlight(trace) then 1 else 0
      {
        assert Finishes(trace, t) == Finishes(front, t) + if e.Finish? && e.ticket == t then 1 else 0;
      }
    }
  }

  lemma {:induction false} RowsAndFlights(jobs: nat, trace: Trace)
    requires IsRun(jobs, trace)
    ensures |Rows(trace)| + |InFlight(trace)| == |Jobs(trace)|
  {
    if trace != [] {
      var front, e := trace[..|trace| - 1], trace[|trace| - 1];
      RowsAndFlights(jobs, front);
      EachRecordedOnce(jobs, front);
      Counts(InFlight(front), |Jobs(front)|, if e.Submit? then e.job else Job(0, false),
             if e.Finish? then e.ticket else 0);
    }
  }

  ghost predicate IsRecorded(rows: seq<Row>, job: Job) {
    exists i :: 0 <= i < |rows| && rows[i].job == job
  }

  /** Every job that is no longer in flight has a row. */
  lemma {:induction false} LandedIsRecorded(jobs: nat, trace: Trace, t: nat)
    requires IsRun(jobs, trace) && t < |Jobs(trace)| && t !in InFlight(trace)
    ensures IsRecorded(Rows(trace), Jobs(trace)[t])
  {
    var front, e := trace[..|trace| - 1], trace[|trace| - 1];
    EachRecordedOnce(jobs, front);
    if t in InFlight(front) {
      assert Rows(trace)[|Rows(front)|].job == Jobs(front)[t];
    } else {
      LandedIsRecorded(jobs, front, t);
      var i :| 0 <= i < |Rows(front)| && Rows(front)[i].job == Jobs(front)[t];
      assert Rows(trace)[i] == Rows(front)[i];
    }
  }

  /** Every row belongs to a submitted job. */
  lemma {:induction false} RowsAreSubmitted(jobs: nat, trace: Trace)
    requires IsRun(jobs, trace)
    ensures forall i :: 0 <= i < |Rows(trace)| ==> Rows(trace)[i].job in Jobs(trace)
  {
    if trace != [] {
      var front := trace[..|trace| - 1];
      RowsAreSubmitted(jobs, front);
      EachRecordedOnce(jobs, front);
    }
  }
}
