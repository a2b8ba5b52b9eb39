/**
 * One service-health cycle as steps: a dispatcher, workers, a closer and a collector, joined by two
 * unbuffered channels and a context that may expire. A send and its receive are one step.
 */
module HealthCycle {
  import opened Common
  import opened Ordering

  datatype HealthState = Unknown | Reachable | AuthRequired | ResponseError | Unreachable | Stale

  datatype Observation = Observation(id: int, state: HealthState, checkedAt: Option<int>)

  function Unprobed(id: int): Observation { Observation(id, Unknown, None) }

  datatype Worker = Receiving | Probing(job: nat) | Sending(job: nat, result: Observation) | Exited

  datatype Dispatcher = Dispatching | Closing | Stopped

  /** `started` and `log` record which probes began and what they returned. */
  datatype State = State(
    jobs: seq<int>,
    next: nat,
    dispatcher: Dispatcher,
    jobsClosed: bool,
    workers: seq<Worker>,
    closerDone: bool,
    resultsClosed: bool,
    results: map<int, Observation>,
    published: Option<map<int, Observation>>,
    expired: bool,
    started: seq<nat>,
    log: seq<(nat, Observation)>
  )

  datatype Label = Expire
                 | Dispatch(w: nat) | DispatchAbort | DispatchFinish | CloseJobs
                 | WorkerDrain(w: nat) | ProbeDone(w: nat, result: Observation)
                 | WorkerSend(w: nat) | WorkerAbort(w: nat)
                 | CloseResults | Publish

  function Start(configured: set<int>, jobs: seq<int>, workers: nat): State {
    State(jobs, 0, Dispatching, false, seq(if workers > |jobs| then |jobs| else workers, _ => Receiving),
          false, false, map id | id in configured :: Unprobed(id), None, false, [], [])
  }

  function Collected(results: map<int, Observation>, r: Observation): map<int, Observation> {
    if r.id in results then results[r.id := r] else results
  }

  predicate AllExited(workers: seq<Worker>) { forall w | 0 <= w < |workers| :: workers[w].Exited? }

  /** The effect of a step, or None when it cannot happen. A probe answers for the service it was given. */
  function Next(s: State, l: Label): Option<State> {
    match l
    case Expire => if s.expired then None else Some(s.(expired := true))
    case Dispatch(w) =>
      if s.dispatcher == Dispatching && s.next < |s.jobs| && w < |s.workers| && s.workers[w].Receiving?
      then Some(s.(next := s.next + 1, workers := s.workers[w := Probing(s.next)], started := s.started + [s.next]))
      else None
    case DispatchAbort =>
      if s.dispatcher == Dispatching && s.next < |s.jobs| && s.expired then Some(s.(dispatcher := Closing)) else None
    case DispatchFinish =>
      if s.dispatcher == Dispatching && s.next == |s.jobs| then Some(s.(dispatcher := Closing)) else None
    case CloseJobs =>
      if s.dispatcher == Closing then Some(s.(dispatcher := Stopped, jobsClosed := true)) else None
    case WorkerDrain(w) =>
      if w < |s.workers| && s.workers[w].Receiving? && s.jobsClosed then Some(s.(workers := s.workers[w := Exited]))
      else None
    case ProbeDone(w, r) =>
      if w < |s.workers| && s.workers[w].Probing? && s.workers[w].job < |s.jobs| && r.id == s.jobs[s.workers[w].job]
      then Some(s.(workers := s.workers[w := Sending(s.workers[w].job, r)], log := s.log + [(s.workers[w].job, r)]))
      else None
    case WorkerSend(w) =>
      if w < |s.workers| && s.workers[w].Sending? && s.published.None? && !s.resultsClosed
      then Some(s.(workers := s.workers[w := Receiving], results := Collected(s.results, s.workers[w].result)))
      else None
    case WorkerAbort(w) =>
      if w < |s.workers| && s.workers[w].Sending? && s.expired then Some(s.(workers := s.workers[w := Exited]))
      else None
    case CloseResults =>
      if !s.closerDone && AllExited(s.workers) then Some(s.(closerDone := true, resultsClosed := true)) else None
    case Publish =>
      if s.resultsClosed && s.published.None? then Some(s.(published := Some(s.results))) else None
  }

  function After(s: State, run: seq<Label>): Option<State> {
    if run == [] then Some(s)
    else
      var before := After(s, run[..|run| - 1]);
      if before.None? then None else Next(before.value, run[|run| - 1])
  }

  // What every step keeps

  predicate Busy(w: Worker) { w.Probing? || w.Sending? }

  predicate ControlOk(s: State) {
    && s.next <= |s.jobs|
    && (s.jobsClosed <==> s.dispatcher == Stopped)
    && (s.dispatcher != Dispatching ==> s.next == |s.jobs| || s.expired)
    && (s.resultsClosed <==> s.closerDone)
    && (s.resultsClosed ==> AllExited(s.workers))
    && (Exited in s.workers ==> s.jobsClosed || s.expired)
    && (s.published.Some? ==> s.resultsClosed && s.published.value == s.results)
    && s.workers != []
  }

  predicate FlightOk(s: State) {
    && |s.started| == s.next && (forall k | 0 <= k < s.next :: s.started[k] == k)
    && (forall w | 0 <= w < |s.workers| && Busy(s.workers[w]) :: s.workers[w].job < s.next)
    && (forall v, w | 0 <= v < w < |s.workers| && Busy(s.workers[v]) && Busy(s.workers[w]) ::
          s.workers[v].job != s.workers[w].job)
  }

  /** Each started job is being probed or has returned exactly once. */
  predicate LogOk(s: State) {
    && (forall e | e in s.log :: e.0 < s.next <= |s.jobs| && e.1.id == s.jobs[e.0])
    && (forall i, j | 0 <= i < j < |s.log| :: s.log[i].0 != s.log[j].0)
    && (forall w | 0 <= w < |s.workers| && s.workers[w].Sending? :: (s.workers[w].job, s.workers[w].result) in s.log)
    && (forall w, e | 0 <= w < |s.workers| && s.workers[w].Probing? && e in s.log :: e.0 != s.workers[w].job)
  }

  predicate Delivered(s: State, e: (nat, Observation)) { e.1.id in s.results && s.results[e.1.id] == e.1 }

  predicate Awaits(w: Worker, job: nat) { Busy(w) && w.job == job }

  predicate InFlight(s: State, job: nat) { exists w | 0 <= w < |s.workers| :: Awaits(s.workers[w], job) }

  /** The job is being worked on, or its answer is the one collected. */
  predicate Accounted(s: State, job: nat) { InFlight(s, job) || exists e | e in s.log :: e.0 == job && Delivered(s, e) }

  predicate ResultsOk(s: State, configured: set<int>) {
    && s.results.Keys == configured
    && (forall id | id in s.results ::
          s.results[id] == Unprobed(id) || exists e | e in s.log :: e.1 == s.results[id] && e.1.id == id)
    && (!s.expired ==> forall job | 0 <= job < s.next :: Accounted(s, job))
  }

  ghost predicate JobsOk(s: State, configured: set<int>) {
    Distinct(s.jobs) && forall id | id in s.jobs :: id in configured
  }

  ghost predicate Invariant(s: State, configured: set<int>) {
    JobsOk(s, configured) && ControlOk(s) && FlightOk(s) && LogOk(s) && ResultsOk(s, configured)
  }

  lemma ControlKept(s: State, l: Label)
    requires ControlOk(s) && Next(s, l).Some?
    ensures ControlOk(Next(s, l).value)
  {
  }

  lemma FlightKept(s: State, l: Label)
    requires FlightOk(s) && Next(s, l).Some?
    ensures FlightOk(Next(s, l).value)
  {
    if l.Dispatch? {
      DispatchKeepsFlight(s, l.w);
    } else if OfWorker(l) {
      WorkerKeepsFlight(s, l);
    }
  }

  predicate OfWorker(l: Label) { l.WorkerDrain? || l.ProbeDone? || l.WorkerSend? || l.WorkerAbort? }

  lemma DispatchKeepsFlight(s: State, w: nat)
    requires FlightOk(s) && Next(s, Dispatch(w)).Some?
    ensures FlightOk(Next(s, Dispatch(w)).value)
  {
  }

  lemma WorkerKeepsFlight(s: State, l: Label)
    requires FlightOk(s) && Next(s, l).Some? && OfWorker(l)
    ensures FlightOk(Next(s, l).value)
  {
    var t := Next(s, l).value;
    assert forall v | 0 <= v < |t.workers| && Busy(t.workers[v]) ::
        Busy(s.workers[v]) && t.workers[v].job == s.workers[v].job;
  }

  lemma LogKept(s: State, l: Label)
    requires ControlOk(s) && FlightOk(s) && LogOk(s) && Next(s, l).Some?
    ensures LogOk(Next(s, l).value)
  {
    if l.ProbeDone? {
      AnswerKeepsLog(s, l);
    } else if l.Dispatch? {
      DispatchKeepsLog(s, l.w);
    } else if OfWorker(l) {
      WorkerKeepsLog(s, l);
    }
  }

  lemma AnswerKeepsLog(s: State, l: Label)
    requires s.next <= |s.jobs| && FlightOk(s) && LogOk(s) && Next(s, l).Some? && l.ProbeDone?
    ensures LogOk(Next(s, l).value)
  {
  }

  lemma DispatchKeepsLog(s: State, w: nat)
    requires LogOk(s) && Next(s, Dispatch(w)).Some?
    ensures LogOk(Next(s, Dispatch(w)).value)
  {
  }

  lemma WorkerKeepsLog(s: State, l: Label)
    requires LogOk(s) && Next(s, l).Some? && OfWorker(l) && !l.ProbeDone?
    ensures LogOk(Next(s, l).value)
  {
  }

  lemma ResultsKept(s: State, l: Label, configured: set<int>)
    requires Invariant(s, configured) && Next(s, l).Some?
    ensures ResultsOk(Next(s, l).value, configured)
  {
    var t := Next(s, l).value;
    if !t.expired {
      forall job | 0 <= job < t.next ensures Accounted(t, job) { JobStaysAccounted(s, l, configured, job); }
    }
  }

  lemma OneAnswer(s: State, configured: set<int>, e: (nat, Observation), f: (nat, Observation))
    requires JobsOk(s, configured) && LogOk(s) && e in s.log && f in s.log
    ensures e.1.id == f.1.id ==> e == f
  {
    var i :| 0 <= i < |s.log| && s.log[i] == e;
    var j :| 0 <= j < |s.log| && s.log[j] == f;
    assert e.1.id == f.1.id ==> i == j;
  }

  lemma JobStaysAccounted(s: State, l: Label, configured: set<int>, job: nat)
    requires Invariant(s, configured) && Next(s, l).Some?
    requires !Next(s, l).value.expired && job < Next(s, l).value.next
    ensures Accounted(Next(s, l).value, job)
  {
    var t := Next(s, l).value;
    if job == s.next {
      assert Awaits(t.workers[l.w], job);
    } else if w :| 0 <= w < |s.workers| && Awaits(s.workers[w], job) {
      if l.WorkerSend? && l.w == w {
        assert (job, s.workers[w].result) in t.log && Delivered(t, (job, s.workers[w].result));
      } else {
        assert Awaits(t.workers[w], job);
      }
    } else {
      assert Accounted(s, job);
      var e :| e in s.log && e.0 == job && Delivered(s, e);
      if l.WorkerSend? { OneAnswer(s, configured, e, (s.workers[l.w].job, s.workers[l.w].result)); }
      assert e in t.log && Delivered(t, e);
    }
  }

  lemma StartIsOk(configured: set<int>, jobs: seq<int>, workers: nat)
    requires Distinct(jobs) && (forall id | id in jobs :: id in configured) && jobs != [] && workers >= 1
    ensures Invariant(Start(configured, jobs, workers), configured)
  {
    assert Start(configured, jobs, workers).results.Keys == configured;
  }

  lemma InvariantKept(s: State, l: Label, configured: set<int>)
    requires Invariant(s, configured) && Next(s, l).Some?
    ensures Invariant(Next(s, l).value, configured)
    ensures Next(s, l).value.jobs == s.jobs && |Next(s, l).value.workers| == |s.workers|
  {
    ControlKept(s, l);
    FlightKept(s, l);
    LogKept(s, l);
    ResultsKept(s, l, configured);
  }

  lemma {:induction false} InvariantHolds(s: State, run: seq<Label>, configured: set<int>)
    requires Invariant(s, configured) && After(s, run).Some?
    ensures Invariant(After(s, run).value, configured)
    ensures After(s, run).value.jobs == s.jobs && |After(s, run).value.workers| == |s.workers|
  {
    if run != [] {
      var n := |run| - 1;
      InvariantHolds(s, run[..n], configured);
      InvariantKept(After(s, run[..n]).value, run[n], configured);
    }
  }

  // No panic, no deadlock, no endless run

  /** Go panics on a send on a closed channel and on closing one twice. */
  predicate Panics(s: State) {
    || (s.dispatcher == Dispatching && s.next < |s.jobs| && s.jobsClosed)
    || (s.dispatcher == Closing && s.jobsClosed)
    || (s.resultsClosed && exists w | w in s.workers :: w.Sending?)
    || (!s.closerDone && s.resultsClosed)
  }

  predicate Finished(s: State) {
    s.published.Some? && s.dispatcher == Stopped && s.closerDone && AllExited(s.workers)
  }

  /** A step that is always possible until everything has finished; it never waits for the context. */
  function Fallback(s: State, probe: int -> Observation): Label {
    var w := FirstWhere(s.workers, (x: Worker) => !x.Exited?);
    if w < |s.workers| && s.workers[w].Probing? then
      ProbeDone(w, if s.workers[w].job < |s.jobs| then probe(s.jobs[s.workers[w].job]) else Unprobed(0))
    else if w < |s.workers| && s.workers[w].Sending? then WorkerSend(w)
    else if s.dispatcher == Closing then CloseJobs
    else if w < |s.workers| then
      (if s.dispatcher == Stopped then WorkerDrain(w) else if s.next < |s.jobs| then Dispatch(w) else DispatchFinish)
    else if s.dispatcher == Dispatching then (if s.next < |s.jobs| then DispatchAbort else DispatchFinish)
    else if !s.closerDone then CloseResults
    else Publish
  }

  /** As long as probes return, the cycle can always go on until all goroutines have ended. */
  lemma NoDeadlock(s: State, configured: set<int>, probe: int -> Observation)
    requires Invariant(s, configured) && !Finished(s)
    requires forall id :: probe(id).id == id
    ensures Next(s, Fallback(s, probe)).Some?
  {
    var w := FirstWhere(s.workers, (x: Worker) => !x.Exited?);
    if w == |s.workers| {
      assert s.workers[0].Exited?;
      assert Exited in s.workers;
    }
  }

  function Weight(w: Worker): nat {
    match w case Exited => 0 case Receiving => 1 case Sending(_, _) => 2 case Probing(_) => 3
  }

  function Weights(workers: seq<Worker>): nat {
    if workers == [] then 0 else Weights(workers[..|workers| - 1]) + Weight(workers[|workers| - 1])
  }

  lemma {:induction false} WeightsUpdate(workers: seq<Worker>, k: nat, w: Worker)
    requires k < |workers|
    ensures Weights(workers[k := w]) == Weights(workers) - Weight(workers[k]) + Weight(w)
  {
    var n := |workers| - 1;
    if k < n {
      WeightsUpdate(workers[..n], k, w);
      assert workers[k := w][..n] == workers[..n][k := w];
    } else {
      assert workers[k := w][..n] == workers[..n];
    }
  }

  function Measure(s: State): nat
    requires s.next <= |s.jobs|
  {
    3 * (|s.jobs| - s.next) + Weights(s.workers)
    + (match s.dispatcher case Dispatching => 2 case Closing => 1 case Stopped => 0)
    + (if s.closerDone then 0 else 1) + (if s.published.Some? then 0 else 1) + (if s.expired then 0 else 1)
  }

  lemma StepDecreases(s: State, l: Label)
    requires ControlOk(s) && Next(s, l).Some?
    ensures Next(s, l).value.next <= |Next(s, l).value.jobs|
    ensures Measure(Next(s, l).value) < Measure(s)
  {
    var t := Next(s, l).value;
    if l.Dispatch? { WeightsUpdate(s.workers, l.w, t.workers[l.w]); }
    if l.WorkerDrain? || l.ProbeDone? || l.WorkerSend? || l.WorkerAbort? {
      WeightsUpdate(s.workers, l.w, t.workers[l.w]);
    }
  }

  lemma {:induction false} RunIsBounded(s: State, run: seq<Label>, configured: set<int>)
    requires Invariant(s, configured) && After(s, run).Some?
    ensures After(s, run).value.next <= |After(s, run).value.jobs|
    ensures |run| + Measure(After(s, run).value) <= Measure(s)
  {
    if run != [] {
      var n := |run| - 1;
      RunIsBounded(s, run[..n], configured);
      InvariantHolds(s, run[..n], configured);
      StepDecreases(After(s, run[..n]).value, run[n]);
    }
  }

  /** Every run: no panic, a way on until the end, and a bound on its length that depends only on the start. */
  lemma CycleIsSafe(configured: set<int>, jobs: seq<int>, workers: nat, run: seq<Label>, probe: int -> Observation)
    requires Distinct(jobs) && (forall id | id in jobs :: id in configured) && jobs != [] && workers >= 1
    requires After(Start(configured, jobs, workers), run).Some?
    requires forall id :: probe(id).id == id
    ensures var s := After(Start(configured, jobs, workers), run).value;
            && !Panics(s)
            && (Finished(s) || Next(s, Fallback(s, probe)).Some?)
            && |run| <= 4 * |jobs| + 5
  {
    var start := Start(configured, jobs, workers);
    StartIsOk(configured, jobs, workers);
    InvariantHolds(start, run, configured);
    RunIsBounded(start, run, configured);
    var s := After(start, run).value;
    if !Finished(s) { NoDeadlock(s, configured, probe); }
    StartWeight(start.workers);
  }

  lemma {:induction false} StartWeight(workers: seq<Worker>)
    requires forall k | 0 <= k < |workers| :: workers[k].Receiving?
    ensures Weights(workers) == |workers|
  {
    if workers != [] { StartWeight(workers[..|workers| - 1]); }
  }

  // Probes

  function ProbesRunning(workers: seq<Worker>): (n: nat)
    ensures n <= |workers|
  {
    if workers == [] then 0
    else ProbesRunning(workers[..|workers| - 1]) + (if workers[|workers| - 1].Probing? then 1 else 0)
  }

  /** No job is ever probed twice, and never more than min(workers, jobs) at once. */
  lemma ProbesAreBounded(configured: set<int>, jobs: seq<int>, workers: nat, run: seq<Label>)
    requires Distinct(jobs) && (forall id | id in jobs :: id in configured) && jobs != [] && workers >= 1
    requires After(Start(configured, jobs, workers), run).Some?
    ensures var s := After(Start(configured, jobs, workers), run).value;
            && Distinct(s.started) && (forall job | job in s.started :: job < |jobs|)
            && ProbesRunning(s.workers) <= workers && ProbesRunning(s.workers) <= |jobs|
  {
    StartIsOk(configured, jobs, workers);
    InvariantHolds(Start(configured, jobs, workers), run, configured);
  }

  // What is published

  /** Exactly the configured ids, and no entry that this cycle's probe of that id did not return. */
  lemma PublishedIsHonest(configured: set<int>, jobs: seq<int>, workers: nat, run: seq<Label>)
    requires Distinct(jobs) && (forall id | id in jobs :: id in configured) && jobs != [] && workers >= 1
    requires After(Start(configured, jobs, workers), run).Some?
    requires After(Start(configured, jobs, workers), run).value.published.Some?
    ensures var s := After(Start(configured, jobs, workers), run).value;
            var published := s.published.value;
            && published.Keys == configured
            && forall id | id in configured && published[id] != Unprobed(id) ::
                 exists e | e in s.log :: e.0 < |jobs| && jobs[e.0] == id && e.1 == published[id]
  {
    StartIsOk(configured, jobs, workers);
    InvariantHolds(Start(configured, jobs, workers), run, configured);
  }

  /** The job was answered, and its answer is what is published for the id. */
  ghost predicate AnswerStands(log: seq<(nat, Observation)>, published: map<int, Observation>, job: nat, id: int) {
    exists e | e in log :: e.0 == job && id in published && published[id] == e.1
  }

  /** If the context never expires, every eligible job was probed and its answer is the one published. */
  lemma PublishedIsComplete(configured: set<int>, jobs: seq<int>, workers: nat, run: seq<Label>)
    requires Distinct(jobs) && (forall id | id in jobs :: id in configured) && jobs != [] && workers >= 1
    requires After(Start(configured, jobs, workers), run).Some?
    requires After(Start(configured, jobs, workers), run).value.published.Some?
    requires Expire !in run
    ensures var s := After(Start(configured, jobs, workers), run).value;
            forall job | 0 <= job < |jobs| ::
                s.published.Some? && AnswerStands(s.log, s.published.value, job, jobs[job])
  {
    var start := Start(configured, jobs, workers);
    StartIsOk(configured, jobs, workers);
    InvariantHolds(start, run, configured);
    NeverExpired(start, run);
    var s := After(start, run).value;
    assert s.workers[0].Exited? && Exited in s.workers;
    forall job | 0 <= job < |jobs|
      ensures AnswerStands(s.log, s.published.value, job, jobs[job])
    {
      assert Accounted(s, job);
      var e :| e in s.log && e.0 == job && Delivered(s, e);
      assert e.0 == job && jobs[job] in s.published.value && s.published.value[jobs[job]] == e.1;
    }
  }

  lemma {:induction false} NeverExpired(s: State, run: seq<Label>)
    requires !s.expired && Expire !in run && After(s, run).Some?
    ensures !After(s, run).value.expired
  {
    if run != [] {
      assert run[|run| - 1] in run;
      NeverExpired(s, run[..|run| - 1]);
    }
  }
}
