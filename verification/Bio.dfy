/** Background jobs: submitters, three worker threads and the draining main thread, interleaved. Each step is
    one critical section, or the work a worker does without the lock. */
module Bio {
  import opened CString

  datatype JobType = CLOSE_FILE | AOF_FSYNC | CLOSE_AOF | LAZY_FREE | COMP_CLOSE_FILE | COMP_AOF_FSYNC | COMP_LAZY_FREE

  const WORKERS := 3

  /** bio_job_to_worker */
  function WorkerOf(t: JobType): (w: nat)
    ensures w < WORKERS
  {
    match t
    case CLOSE_FILE => 0
    case AOF_FSYNC => 1
    case CLOSE_AOF => 1
    case LAZY_FREE => 2
    case COMP_CLOSE_FILE => 0
    case COMP_AOF_FSYNC => 1
    case COMP_LAZY_FREE => 2
  }

  predicate IsCompletion(t: JobType) { t.COMP_CLOSE_FILE? || t.COMP_AOF_FSYNC? || t.COMP_LAZY_FREE? }

  /** A job; the payload stands for its arguments. */
  datatype Job = Job(t: JobType, payload: nat)

  /** Where a worker is: waiting on its condition, working on the head of its queue without the lock, or about
      to take the lock again with that job done. */
  datatype WorkerAt = Waiting(woken: bool) | Running(job: Job) | Finished(job: Job)

  /** A worker with its queue, and the jobs ever submitted to it, executed by it and deleted from its queue. */
  datatype Worker = Worker(at: WorkerAt, queue: seq<Job>, submitted: seq<Job>, executed: seq<Job>, deleted: seq<Job>)

  /** The main thread: free, waiting in bioDrainWorker(), or running the callbacks it took from the list. */
  datatype MainAt = Free | Draining(w: nat, woken: bool) | Calling(items: seq<Job>)

  /** When a drain returned: the worker, the jobs submitted to it by then, and those executed. */
  datatype Drained = Drained(w: nat, submitted: seq<Job>, executed: seq<Job>)

  datatype State = State(workers: seq<Worker>, counters: map<JobType, nat>, completions: seq<Job>, main: MainAt,
                         called: seq<Job>, drains: seq<Drained>)

  datatype Step =
    | Submit(job: Job, toMain: bool)
    | Wake(w: nat)
    | Work(w: nat)
    | Delete(w: nat, toMain: bool)
    | DrainStart(w: nat)
    | DrainWake
    | ReadPipe
    | Callback

  // ----- the steps -----

  predicate Waits(s: State, w: nat)
    requires w < |s.workers|
  {
    s.workers[w].at == Waiting(false)
  }

  predicate MainWaits(s: State, w: nat) { s.main == Draining(w, false) }

  /** pthread_cond_signal(): at least one of the threads waiting on the condition is woken; toMain says which
      when both wait. */
  function Signal(s: State, w: nat, toMain: bool): State
    requires w < |s.workers|
  {
    if MainWaits(s, w) && (toMain || !Waits(s, w)) then s.(main := Draining(w, true))
    else if Waits(s, w) then s.(workers := s.workers[w := s.workers[w].(at := Waiting(true))])
    else s
  }

  /** The top of the worker loop, with the lock held. */
  function Top(x: Worker): Worker { x.(at := if x.queue == [] then Waiting(false) else Running(x.queue[0])) }

  predicate Shape(s: State) { |s.workers| == WORKERS && forall t: JobType :: t in s.counters }

  predicate Enabled(s: State, step: Step) {
    && Shape(s)
    && match step
       case Submit(job, _) => true
       // a wait may also end without a signal
       case Wake(w) => w < WORKERS && s.workers[w].at.Waiting?
       case Work(w) => w < WORKERS && s.workers[w].at.Running?
       case Delete(w, _) => w < WORKERS && s.workers[w].at.Finished? && s.workers[w].queue != []
                            && s.counters[s.workers[w].at.job.t] > 0
       case DrainStart(w) => w < WORKERS && s.main.Free?
       case DrainWake => s.main.Draining? && s.main.w < WORKERS
       case ReadPipe => s.main.Free? && s.completions != []
       case Callback => s.main.Calling?
  }

  /** bioDrainWorker() with the lock held: return when the queue is empty, otherwise wait. */
  function Drain(s: State, w: nat): State
    requires w < |s.workers|
  {
    var x := s.workers[w];
    if x.queue == [] then s.(main := Free, drains := s.drains + [Drained(w, x.submitted, x.executed)])
    else s.(main := Draining(w, false))
  }

  function Next(s: State, step: Step): State
    requires Enabled(s, step)
  {
    match step
    case Submit(job, toMain) =>
      var w := WorkerOf(job.t);
      var x := s.workers[w];
      Signal(s.(workers := s.workers[w := x.(queue := x.queue + [job], submitted := x.submitted + [job])],
                counters := s.counters[job.t := s.counters[job.t] + 1]), w, toMain)
    case Wake(w) => s.(workers := s.workers[w := Top(s.workers[w])])
    case Work(w) =>
      var x := s.workers[w];
      var job := x.at.job;
      s.(workers := s.workers[w := x.(at := Finished(job), executed := x.executed + [job])],
         completions := if IsCompletion(job.t) then s.completions + [job] else s.completions)
    case Delete(w, toMain) =>
      var x := s.workers[w];
      var job := x.at.job;
      var y := Signal(s.(workers := s.workers[w := x.(queue := x.queue[1..], deleted := x.deleted + [x.queue[0]])],
                         counters := s.counters[job.t := s.counters[job.t] - 1]), w, toMain);
      y.(workers := y.workers[w := Top(y.workers[w])])
    case DrainStart(w) => Drain(s, w)
    case DrainWake => Drain(s, s.main.w)
    case ReadPipe => s.(main := Calling(s.completions), completions := [])
    case Callback =>
      if s.main.items == [] then s.(main := Free)
      else s.(main := Calling(s.main.items[1..]), called := s.called + [s.main.items[0]])
  }

  const IDLE := Worker(Waiting(false), [], [], [], [])

  function ZeroCounters(): map<JobType, nat> {
    map[CLOSE_FILE := 0, AOF_FSYNC := 0, CLOSE_AOF := 0, LAZY_FREE := 0,
        COMP_CLOSE_FILE := 0, COMP_AOF_FSYNC := 0, COMP_LAZY_FREE := 0]
  }

  lemma AllZero(t: JobType)
    ensures t in ZeroCounters() && ZeroCounters()[t] == CountType([], t)
  {
    match t
    case CLOSE_FILE =>
    case AOF_FSYNC =>
    case CLOSE_AOF =>
    case LAZY_FREE =>
    case COMP_CLOSE_FILE =>
    case COMP_AOF_FSYNC =>
    case COMP_LAZY_FREE =>
  }

  /** bioInit() */
  function Start(): State { State([IDLE, IDLE, IDLE], ZeroCounters(), [], Free, [], []) }

  // ----- what every reachable state satisfies -----

  function CountType(q: seq<Job>, t: JobType): nat {
    if q == [] then 0 else CountType(q[..|q| - 1], t) + if q[|q| - 1].t == t then 1 else 0
  }

  /** The completion jobs of one worker, in order. */
  function CompletionsOf(q: seq<Job>, w: nat): seq<Job> {
    if q == [] then []
    else
      var job := q[|q| - 1];
      CompletionsOf(q[..|q| - 1], w) + if IsCompletion(job.t) && WorkerOf(job.t) == w then [job] else []
  }

  predicate WorkerInv(x: Worker, w: nat) {
    && x.submitted == x.deleted + x.queue
    && x.executed == (if x.at.Finished? then x.deleted + [x.at.job] else x.deleted)
    && (forall i :: 0 <= i < |x.submitted| ==> WorkerOf(x.submitted[i].t) == w)
    && (x.at.Running? || x.at.Finished? ==> x.queue != [] && x.queue[0] == x.at.job)
    && (x.at == Waiting(false) ==> x.queue == [])
  }

  predicate AllWorkers(s: State)
    requires |s.workers| == WORKERS
  {
    forall w :: 0 <= w < WORKERS ==> WorkerInv(s.workers[w], w)
  }

  /** bio_jobs_counter: the jobs of the type that are queued or running. */
  predicate Counters(s: State)
    requires Shape(s)
  {
    forall t: JobType :: s.counters[t] == CountType(s.workers[WorkerOf(t)].queue, t)
  }

  /** The responses handed over so far, in order: called, taken by the main thread, still in the list. */
  function Handed(s: State): seq<Job> { s.called + (if s.main.Calling? then s.main.items else []) + s.completions }

  predicate Responses(s: State)
    requires |s.workers| == WORKERS
  {
    forall w :: 0 <= w < WORKERS ==> CompletionsOf(Handed(s), w) == CompletionsOf(s.workers[w].executed, w)
  }

  /** A drain that sleeps still has something to wait for. */
  predicate DrainInv(s: State)
    requires |s.workers| == WORKERS
  {
    && (s.main.Draining? ==> s.main.w < WORKERS)
    && (s.main.Draining? && !s.main.woken ==> s.workers[s.main.w].queue != [])
    && (forall i :: 0 <= i < |s.drains| ==> s.drains[i].executed == s.drains[i].submitted)
  }

  predicate Inv(s: State) { Shape(s) && AllWorkers(s) && Counters(s) && Responses(s) && DrainInv(s) }

  lemma StartInv()
    ensures Inv(Start())
  {
    hide ZeroCounters, CountType, CompletionsOf, WorkerInv;
    IdleInv();
    assert Handed(Start()) == [];
    forall t: JobType ensures t in ZeroCounters() && ZeroCounters()[t] == CountType([], t) { AllZero(t); }
  }

  lemma IdleInv()
    ensures forall w: nat :: WorkerInv(IDLE, w)
  {
  }

  // ----- sequences of jobs -----

  lemma CountTypeAppend(q: seq<Job>, job: Job, t: JobType)
    ensures CountType(q + [job], t) == CountType(q, t) + if job.t == t then 1 else 0
  {
    assert (q + [job])[..|q|] == q;
  }

  lemma {:induction false} CountTypeTail(q: seq<Job>, t: JobType)
    requires q != []
    ensures CountType(q, t) == CountType(q[1..], t) + if q[0].t == t then 1 else 0
  {
    var n := |q| - 1;
    if n > 0 {
      CountTypeTail(q[..n], t);
      assert q[..n][1..] == q[1..][..n - 1];
    } else {
      assert q[..0] == [] && q[1..] == [];
    }
  }

  lemma CompletionsAppend(q: seq<Job>, job: Job, w: nat)
    ensures CompletionsOf(q + [job], w)
         == CompletionsOf(q, w) + if IsCompletion(job.t) && WorkerOf(job.t) == w then [job] else []
  {
    assert (q + [job])[..|q|] == q;
  }

  // ----- every step keeps the invariant -----

  /** Replacing one worker. */
  lemma OneWorker(s: State, r: State, w: nat)
    requires |s.workers| == |r.workers| == WORKERS && w < WORKERS && AllWorkers(s)
    requires (forall v :: 0 <= v < WORKERS && v != w ==> r.workers[v] == s.workers[v]) && WorkerInv(r.workers[w], w)
    ensures AllWorkers(r)
  {
    hide WorkerInv;
  }

  lemma SameResponses(s: State, r: State, w: nat)
    requires |s.workers| == |r.workers| == WORKERS && w < WORKERS && Responses(s) && Handed(r) == Handed(s)
    requires forall v :: 0 <= v < WORKERS && v != w ==> r.workers[v] == s.workers[v]
    requires r.workers[w].executed == s.workers[w].executed
    ensures Responses(r)
  {
    hide CompletionsOf, Handed;
  }

  /** The state of Submit before the signal. */
  function Queued(s: State, job: Job): State
    requires Shape(s)
  {
    var w := WorkerOf(job.t);
    var x := s.workers[w];
    s.(workers := s.workers[w := x.(queue := x.queue + [job], submitted := x.submitted + [job])],
       counters := s.counters[job.t := s.counters[job.t] + 1])
  }

  lemma SubmitCounters(s: State, job: Job)
    requires Inv(s)
    ensures Counters(Queued(s, job))
  {
    hide AllWorkers, Responses, DrainInv, CountType;
    forall t: JobType ensures Queued(s, job).counters[t] == CountType(Queued(s, job).workers[WorkerOf(t)].queue, t) {
      CountTypeAppend(s.workers[WorkerOf(t)].queue, job, t);
    }
  }

  lemma SignalCounters(s: State, w: nat, toMain: bool)
    requires Shape(s) && Counters(s) && w < WORKERS
    ensures Shape(Signal(s, w, toMain)) && Counters(Signal(s, w, toMain))
  {
    hide CountType;
    var r := Signal(s, w, toMain);
    forall t: JobType ensures r.counters[t] == CountType(r.workers[WorkerOf(t)].queue, t) {
      assert r.workers[WorkerOf(t)].queue == s.workers[WorkerOf(t)].queue;
    }
  }

  /** What a signal changes. */
  predicate Signaled(q: State, r: State, w: nat)
    requires w < |q.workers| == |r.workers|
  {
    && r.counters == q.counters && r.completions == q.completions && r.called == q.called && r.drains == q.drains
    && (forall v :: 0 <= v < |q.workers| && v != w ==> r.workers[v] == q.workers[v])
    && (r.workers[w] == q.workers[w] || (Waits(q, w) && r.workers[w] == q.workers[w].(at := Waiting(true))))
    && (r.main == q.main || (MainWaits(q, w) && r.main == Draining(w, true)))
    // one of the waiters is woken
    && (Waits(q, w) && !MainWaits(q, w) ==> !Waits(r, w))
    && (MainWaits(q, w) && !Waits(q, w) ==> !MainWaits(r, w))
  }

  lemma SignalSignals(q: State, w: nat, toMain: bool)
    requires w < |q.workers|
    ensures var r := Signal(q, w, toMain); |r.workers| == |q.workers| && Signaled(q, r, w)
  {}

  lemma SubmitWorkers(s: State, job: Job, r: State)
    requires Shape(s) && AllWorkers(s) && DrainInv(s)
    requires |r.workers| == WORKERS && Signaled(Queued(s, job), r, WorkerOf(job.t))
    ensures AllWorkers(r) && DrainInv(r)
  {
    var w := WorkerOf(job.t);
    var x, y := s.workers[w], r.workers[w];
    assert WorkerInv(x, w);
    assert x.deleted + (x.queue + [job]) == x.deleted + x.queue + [job];
    assert WorkerInv(y, w);
    OneWorker(s, r, w);
  }

  lemma SubmitKeeps(s: State, job: Job, toMain: bool)
    requires Inv(s)
    ensures Inv(Next(s, Submit(job, toMain)))
  {
    hide Counters, AllWorkers, Responses, DrainInv, Signal;
    var w := WorkerOf(job.t);
    var q, r := Queued(s, job), Next(s, Submit(job, toMain));
    assert r == Signal(q, w, toMain);
    SubmitCounters(s, job);
    SignalCounters(q, w, toMain);
    SignalSignals(q, w, toMain);
    SubmitWorkers(s, job, r);
    SameResponses(s, r, w);
  }

  lemma WakeKeeps(s: State, w: nat)
    requires Inv(s) && Enabled(s, Wake(w))
    ensures Inv(Next(s, Wake(w)))
  {
    hide CountType, CompletionsOf;
    var r := Next(s, Wake(w));
    assert WorkerInv(s.workers[w], w);
    OneWorker(s, r, w);
    SameResponses(s, r, w);
    CountersSame(s, r);
  }

  lemma CountersSame(s: State, r: State)
    requires Shape(s) && Shape(r) && Counters(s) && r.counters == s.counters
    requires forall w :: 0 <= w < WORKERS ==> r.workers[w].queue == s.workers[w].queue
    ensures Counters(r)
  {
    hide CountType;
  }

  lemma WorkKeeps(s: State, w: nat)
    requires Inv(s) && Enabled(s, Work(w))
    ensures Inv(Next(s, Work(w)))
  {
    hide CountType, CompletionsOf;
    var r := Next(s, Work(w));
    var x := s.workers[w];
    assert WorkerInv(x, w);
    assert x.submitted[|x.deleted|] == x.at.job;
    OneWorker(s, r, w);
    CountersSame(s, r);
    var job := x.at.job;
    if IsCompletion(job.t) {
      assert Handed(r) == Handed(s) + [job];
      forall v: nat | v < WORKERS ensures CompletionsOf(Handed(r), v) == CompletionsOf(r.workers[v].executed, v) {
        CompletionsAppend(Handed(s), job, v);
        CompletionsAppend(x.deleted, job, w);
      }
    } else {
      forall v: nat | v < WORKERS ensures CompletionsOf(Handed(r), v) == CompletionsOf(r.workers[v].executed, v) {
        CompletionsAppend(x.deleted, job, w);
        assert CompletionsOf(x.deleted, w) + [] == CompletionsOf(x.deleted, w);
      }
    }
  }

  /** The state of Delete before the signal. */
  function Removed(s: State, w: nat): State
    requires Inv(s) && w < WORKERS && s.workers[w].at.Finished?
  {
    var x := s.workers[w];
    assert WorkerInv(x, w);
    CountTypeTail(x.queue, x.at.job.t);
    assert WorkerOf(x.submitted[|x.deleted|].t) == w;
    s.(workers := s.workers[w := x.(queue := x.queue[1..], deleted := x.deleted + [x.queue[0]])],
       counters := s.counters[x.at.job.t := s.counters[x.at.job.t] - 1])
  }

  /** A finished job is always still counted and still at the head: Delete is possible. */
  lemma DeleteEnabled(s: State, w: nat, toMain: bool)
    requires Inv(s) && w < WORKERS && s.workers[w].at.Finished?
    ensures Enabled(s, Delete(w, toMain))
  {
    var x := s.workers[w];
    assert WorkerInv(x, w);
    CountTypeTail(x.queue, x.at.job.t);
    assert WorkerOf(x.submitted[|x.deleted|].t) == w;
  }

  lemma DeleteCounters(s: State, w: nat)
    requires Inv(s) && w < WORKERS && s.workers[w].at.Finished?
    ensures Shape(Removed(s, w)) && Counters(Removed(s, w))
  {
    hide CountType, Responses, DrainInv;
    var x, r := s.workers[w], Removed(s, w);
    assert WorkerInv(x, w);
    assert WorkerOf(x.submitted[|x.deleted|].t) == w;
    forall t: JobType ensures r.counters[t] == CountType(r.workers[WorkerOf(t)].queue, t) {
      CountTypeTail(x.queue, t);
    }
  }

  lemma DeleteWorkers(s: State, w: nat, y: State, r: State)
    requires Inv(s) && w < WORKERS && s.workers[w].at.Finished?
    requires |y.workers| == WORKERS && Signaled(Removed(s, w), y, w)
             && r == y.(workers := y.workers[w := Top(y.workers[w])])
    ensures AllWorkers(r) && DrainInv(r) && r.workers[w].executed == s.workers[w].executed
  {
    hide Counters, Responses, CountType;
    var x, z := s.workers[w], r.workers[w];
    assert WorkerInv(x, w);
    assert x.deleted + x.queue == x.deleted + [x.queue[0]] + x.queue[1..];
    assert y.workers[w] == Removed(s, w).workers[w];
    assert WorkerInv(z, w);
    OneWorker(s, r, w);
  }

  lemma DeleteKeeps(s: State, w: nat, toMain: bool)
    requires Inv(s) && Enabled(s, Delete(w, toMain))
    ensures Inv(Next(s, Delete(w, toMain)))
  {
    hide Counters, AllWorkers, Responses, DrainInv, Signal;
    var q, r := Removed(s, w), Next(s, Delete(w, toMain));
    var y := Signal(q, w, toMain);
    SignalSignals(q, w, toMain);
    assert r == y.(workers := y.workers[w := Top(y.workers[w])]);
    DeleteCounters(s, w);
    SignalCounters(q, w, toMain);
    CountersSame(y, r);
    DeleteWorkers(s, w, y, r);
    SameResponses(s, r, w);
  }

  /** With an empty queue every submitted job has been executed. */
  lemma AllDone(x: Worker, w: nat)
    requires WorkerInv(x, w) && x.queue == []
    ensures x.executed == x.submitted
  {
  }

  lemma DrainKeeps(s: State, w: nat)
    requires Inv(s) && w < WORKERS && !s.main.Calling?
    ensures Inv(Drain(s, w))
  {
    hide CountType, CompletionsOf, WorkerInv;
    var r := Drain(s, w);
    assert AllWorkers(r);
    assert WorkerInv(s.workers[w], w);
    if s.workers[w].queue == [] { AllDone(s.workers[w], w); }
    CountersSame(s, r);
    SameResponses(s, r, w);
  }

  lemma CallbackKeeps(s: State, step: Step)
    requires Inv(s) && Enabled(s, step) && (step.ReadPipe? || step.Callback?)
    ensures Inv(Next(s, step))
  {
    hide CountType, CompletionsOf, WorkerInv;
    var r := Next(s, step);
    assert AllWorkers(r);
    CountersSame(s, r);
    assert Handed(r) == Handed(s);
    SameResponses(s, r, 0);
  }

  lemma StepKeeps(s: State, step: Step)
    requires Inv(s) && Enabled(s, step)
    ensures Inv(Next(s, step))
  {
    hide Inv, Next, Enabled;
    match step
    case Submit(job, toMain) => SubmitKeeps(s, job, toMain);
    case Wake(w) => WakeKeeps(s, w);
    case Work(w) => WorkKeeps(s, w);
    case Delete(w, toMain) => DeleteKeeps(s, w, toMain);
    case DrainStart(w) => DrainStepKeeps(s, step);
    case DrainWake => DrainStepKeeps(s, step);
    case ReadPipe => CallbackKeeps(s, step);
    case Callback => CallbackKeeps(s, step);
  }

  lemma DrainStepKeeps(s: State, step: Step)
    requires Inv(s) && Enabled(s, step) && (step.DrainStart? || step.DrainWake?)
    ensures Inv(Next(s, step))
  {
    hide Inv, Drain;
    if step.DrainStart? { DrainKeeps(s, step.w); } else { DrainKeeps(s, s.main.w); }
  }

  // ----- every interleaving -----

  /** The states an interleaving goes through; a step that cannot be taken is skipped. */
  function Run(steps: seq<Step>): State {
    if steps == [] then Start()
    else
      var s := Run(steps[..|steps| - 1]);
      if Enabled(s, steps[|steps| - 1]) then Next(s, steps[|steps| - 1]) else s
  }

  lemma {:induction false} RunInv(steps: seq<Step>)
    ensures Inv(Run(steps))
  {
    hide Inv, Next, Enabled, Start;
    if steps == [] {
      StartInv();
    } else {
      RunInv(steps[..|steps| - 1]);
      var s := Run(steps[..|steps| - 1]);
      if Enabled(s, steps[|steps| - 1]) { StepKeeps(s, steps[|steps| - 1]); }
    }
  }

  /** Each worker executes the jobs submitted to it in submission order, each once, and deletes each after
      executing it. */
  lemma FirstComeFirstServed(steps: seq<Step>, w: nat)
    requires w < WORKERS
    ensures |Run(steps).workers| == WORKERS
    ensures var x := Run(steps).workers[w];
            x.deleted <= x.executed <= x.submitted && x.submitted == x.deleted + x.queue
  {
    hide Run, Counters, Responses, DrainInv, WorkerInv;
    RunInv(steps);
    WorkerOrder(Run(steps).workers[w], w);
  }

  lemma WorkerOrder(x: Worker, w: nat)
    requires WorkerInv(x, w)
    ensures x.deleted <= x.executed <= x.submitted && x.submitted == x.deleted + x.queue
  {
    if x.at.Finished? { assert x.deleted + [x.queue[0]] == x.submitted[..|x.deleted| + 1]; }
  }

  // ----- in terms of the jobs submitted -----

  /** The jobs a run submits, in order. */
  function Submitted(steps: seq<Step>): seq<Job> {
    if steps == [] then []
    else Submitted(steps[..|steps| - 1]) + if steps[|steps| - 1].Submit? then [steps[|steps| - 1].job] else []
  }

  /** Those of one worker. */
  function ForWorker(jobs: seq<Job>, w: nat): seq<Job> {
    if jobs == [] then []
    else
      ForWorker(jobs[..|jobs| - 1], w) + if WorkerOf(jobs[|jobs| - 1].t) == w then [jobs[|jobs| - 1]] else []
  }

  lemma ForWorkerNext(jobs: seq<Job>, job: Job, w: nat)
    ensures ForWorker(jobs + [job], w) == ForWorker(jobs, w) + if WorkerOf(job.t) == w then [job] else []
  {
    assert (jobs + [job])[..|jobs|] == jobs;
  }

  lemma SubmitStep(s: State, step: Step, w: nat)
    requires Enabled(s, step) && w < WORKERS
    ensures |Next(s, step).workers| == WORKERS
    ensures Next(s, step).workers[w].submitted
         == s.workers[w].submitted + if step.Submit? && WorkerOf(step.job.t) == w then [step.job] else []
  {
    assert s.workers[w].submitted + [] == s.workers[w].submitted;
  }

  /** Every job that is submitted reaches the queue of its worker. */
  lemma {:induction false} SubmittedExactly(steps: seq<Step>, w: nat)
    requires w < WORKERS
    ensures |Run(steps).workers| == WORKERS && Run(steps).workers[w].submitted == ForWorker(Submitted(steps), w)
  {
    hide Next, WorkerOf;
    RunInv(steps);
    if steps != [] {
      var n := |steps| - 1;
      var s, step := Run(steps[..n]), steps[n];
      SubmittedExactly(steps[..n], w);
      RunInv(steps[..n]);
      hide Inv;
      ShapeOf(s);
      if Enabled(s, step) { SubmitStep(s, step, w); }
      if step.Submit? {
        ForWorkerNext(Submitted(steps[..n]), step.job, w);
      } else {
        assert Submitted(steps) == Submitted(steps[..n]);
      }
    }
  }

  lemma ShapeOf(s: State)
    requires Inv(s)
    ensures Shape(s)
  {
  }

  /** The types of jobs a completion request waits for. */
  predicate Completes(t: JobType, earlier: JobType) {
    match t
    case COMP_CLOSE_FILE => earlier.CLOSE_FILE?
    case COMP_AOF_FSYNC => earlier.AOF_FSYNC? || earlier.CLOSE_AOF?
    case COMP_LAZY_FREE => earlier.LAZY_FREE?
    case _ => false
  }

  /** Where a job stands among those of its worker. */
  function Place(jobs: seq<Job>, i: nat): nat
    requires i < |jobs|
  {
    |ForWorker(jobs[..i], WorkerOf(jobs[i].t))|
  }

  lemma {:induction false} PlaceHolds(jobs: seq<Job>, i: nat)
    requires i < |jobs|
    ensures var q := ForWorker(jobs, WorkerOf(jobs[i].t)); Place(jobs, i) < |q| && q[Place(jobs, i)] == jobs[i]
  {
    hide WorkerOf;
    var n := |jobs| - 1;
    if i < n {
      PlaceHolds(jobs[..n], i);
      assert jobs[..n][..i] == jobs[..i];
    }
  }

  lemma {:induction false} PlacesGrow(jobs: seq<Job>, i: nat, j: nat, w: nat)
    requires i <= j <= |jobs|
    ensures |ForWorker(jobs[..i], w)| <= |ForWorker(jobs[..j], w)|
    ensures i < j && WorkerOf(jobs[i].t) == w ==> |ForWorker(jobs[..i], w)| < |ForWorker(jobs[..j], w)|
    decreases j - i
  {
    hide WorkerOf;
    if i < j {
      assert jobs[..i + 1] == jobs[..i] + [jobs[i]];
      ForWorkerNext(jobs[..i], jobs[i], w);
      PlacesGrow(jobs, i + 1, j, w);
    }
  }

  /** A completion request is executed after every earlier job of the type it is about: once it is done, so are
      they, each at its place in the order of submission. */
  lemma CompletionComesLast(steps: seq<Step>, i: nat, j: nat)
    requires i < j < |Submitted(steps)| && Completes(Submitted(steps)[j].t, Submitted(steps)[i].t)
    ensures |Run(steps).workers| == WORKERS
    ensures var jobs := Submitted(steps);
            var done := Run(steps).workers[WorkerOf(jobs[j].t)].executed;
            && Place(jobs, i) < Place(jobs, j)
            && (Place(jobs, j) < |done| ==> done[Place(jobs, i)] == jobs[i] && done[Place(jobs, j)] == jobs[j])
  {
    hide Run, Submitted, ForWorker;
    var jobs := Submitted(steps);
    var w := WorkerOf(jobs[j].t);
    assert WorkerOf(jobs[i].t) == w;
    SubmittedExactly(steps, w);
    FirstComeFirstServed(steps, w);
    PlaceHolds(jobs, i);
    PlaceHolds(jobs, j);
    PlacesGrow(jobs, i, j, w);
  }

  /** No worker gets jobs of two kinds: closing files, the append-only file and freeing memory do not wait for
      each other. */
  lemma KindsApart(steps: seq<Step>, t: JobType, job: Job)
    requires job in ForWorker(Submitted(steps), WorkerOf(t))
    ensures t.CLOSE_FILE? ==> job.t.CLOSE_FILE? || job.t.COMP_CLOSE_FILE?
    ensures t.AOF_FSYNC? ==> job.t.AOF_FSYNC? || job.t.CLOSE_AOF? || job.t.COMP_AOF_FSYNC?
    ensures t.LAZY_FREE? ==> job.t.LAZY_FREE? || job.t.COMP_LAZY_FREE?
  {
    OnlyForWorker(Submitted(steps), WorkerOf(t));
  }

  lemma {:induction false} OnlyForWorker(jobs: seq<Job>, w: nat)
    ensures forall job :: job in ForWorker(jobs, w) ==> job in jobs && WorkerOf(job.t) == w
  {
    hide WorkerOf;
    if jobs != [] { OnlyForWorker(jobs[..|jobs| - 1], w); }
  }

  /** bioPendingJobsOfType() is the number of jobs of the type submitted and not yet deleted. */
  lemma PendingIsExact(steps: seq<Step>, t: JobType)
    ensures Shape(Run(steps))
    ensures Run(steps).counters[t] == CountType(Run(steps).workers[WorkerOf(t)].queue, t)
  {
    hide Run;
    RunInv(steps);
  }

  lemma {:induction false} CompletionsConcat(a: seq<Job>, b: seq<Job>, w: nat)
    ensures CompletionsOf(a + b, w) == CompletionsOf(a, w) + CompletionsOf(b, w)
  {
    if b == [] {
      assert a + b == a;
    } else {
      var n := |b| - 1;
      CompletionsConcat(a, b[..n], w);
      assert a + b == a + b[..n] + [b[n]] && b == b[..n] + [b[n]];
      CompletionsAppend(a + b[..n], b[n], w);
      CompletionsAppend(b[..n], b[n], w);
    }
  }

  /** Callbacks run at most once each and in submission order, and only for completion jobs already executed,
      that is, after every job submitted earlier to the same worker. */
  lemma CallbacksInOrder(steps: seq<Step>, w: nat)
    requires w < WORKERS
    ensures |Run(steps).workers| == WORKERS
    ensures var s := Run(steps);
            && CompletionsOf(s.called, w) <= CompletionsOf(s.workers[w].executed, w)
            && s.workers[w].executed <= s.workers[w].submitted
  {
    hide Run, CompletionsOf;
    RunInv(steps);
    FirstComeFirstServed(steps, w);
    var s := Run(steps);
    var rest := (if s.main.Calling? then s.main.items else []) + s.completions;
    assert Handed(s) == s.called + rest;
    CompletionsConcat(s.called, rest, w);
  }

  /** Some step of the worker is possible. */
  predicate WorkerCanStep(s: State, w: nat) {
    Enabled(s, Wake(w)) || Enabled(s, Work(w)) || Enabled(s, Delete(w, true))
  }

  /** Whenever bioDrainWorker() returns, every job submitted to the worker by then has been executed; while it
      sleeps, the queue is not empty and the worker is not asleep: a step of the worker is possible, so no
      wake-up was lost. */
  lemma DrainsEnd(steps: seq<Step>)
    ensures var s := Run(steps);
            && Shape(s)
            && (forall i :: 0 <= i < |s.drains| ==> s.drains[i].executed == s.drains[i].submitted)
            && (s.main.Draining? && !s.main.woken ==>
                  && s.main.w < WORKERS && s.workers[s.main.w].queue != [] && !Waits(s, s.main.w)
                  && WorkerCanStep(s, s.main.w))
  {
    hide Run, Counters, Responses;
    RunInv(steps);
    var s := Run(steps);
    if s.main.Draining? && !s.main.woken {
      var w := s.main.w;
      assert WorkerInv(s.workers[w], w);
      if s.workers[w].at.Waiting? {
        assert Enabled(s, Wake(w));
      } else if s.workers[w].at.Running? {
        assert Enabled(s, Work(w));
      } else {
        DeleteEnabled(s, w, true);
      }
    }
  }

  // ----- nothing stays undone -----

  /** The next step of a worker with something in its queue. */
  function Onward(s: State, w: nat): Step
    requires w < |s.workers|
  {
    match s.workers[w].at
    case Waiting(_) => Wake(w)
    case Running(_) => Work(w)
    case Finished(_) => Delete(w, true)
  }

  function Ahead(x: Worker): nat { if x.at.Waiting? then 3 else if x.at.Running? then 2 else 1 }

  predicate StillDrains(s: State, r: State) {
    r.drains == s.drains && r.main.Draining? == s.main.Draining? && (s.main.Draining? ==> r.main.w == s.main.w)
  }

  lemma OnwardWorks(s: State, w: nat)
    requires Inv(s) && w < WORKERS && s.workers[w].queue != []
    ensures Enabled(s, Onward(s, w))
    ensures var x, y := s.workers[w], Next(s, Onward(s, w)).workers[w];
      && |y.queue| <= |x.queue| && (|y.queue| == |x.queue| ==> Ahead(y) < Ahead(x)) && y.submitted == x.submitted
    ensures StillDrains(s, Next(s, Onward(s, w)))
  {
    hide Counters, Responses, DrainInv;
    assert WorkerInv(s.workers[w], w);
    if s.workers[w].at.Finished? { DeleteEnabled(s, w, true); }
  }

  lemma RunMore(steps: seq<Step>, step: Step)
    ensures Run(steps + [step]) == if Enabled(Run(steps), step) then Next(Run(steps), step) else Run(steps)
  {
    hide Enabled, Next;
    assert (steps + [step])[..|steps|] == steps;
  }

  /** From every state a worker can, by its own steps, come to the end of its queue: then all that was submitted to
      it has been executed. */
  lemma {:induction false} QueueEnds(steps: seq<Step>, w: nat) returns (more: seq<Step>)
    requires w < WORKERS && |Run(steps).workers| == WORKERS
    ensures |Run(steps + more).workers| == WORKERS
    ensures var x := Run(steps + more).workers[w];
      x.queue == [] && x.executed == x.submitted == Run(steps).workers[w].submitted
    ensures StillDrains(Run(steps), Run(steps + more))
    decreases |Run(steps).workers[w].queue|, Ahead(Run(steps).workers[w])
  {
    hide Run, Next, Enabled, Counters, Responses, DrainInv, WorkerInv, Onward, Ahead;
    RunInv(steps);
    var s := Run(steps);
    assert WorkerInv(s.workers[w], w);
    if s.workers[w].queue == [] {
      more := [];
      assert steps + more == steps;
      AllDone(s.workers[w], w);
    } else {
      var step := Onward(s, w);
      OnwardWorks(s, w);
      RunMore(steps, step);
      RunInv(steps + [step]);
      var rest := QueueEnds(steps + [step], w);
      more := [step] + rest;
      assert steps + more == steps + [step] + rest;
    }
  }

  /** A drain can always come to its end: the worker finishes its queue and the main thread is free again. */
  lemma DrainEnds(steps: seq<Step>) returns (more: seq<Step>)
    requires Run(steps).main.Draining?
    ensures var s, r := Run(steps), Run(steps + more);
      && Shape(s) && s.main.w < WORKERS && r.main.Free?
      && var jobs := s.workers[s.main.w].submitted; r.drains == s.drains + [Drained(s.main.w, jobs, jobs)]
  {
    hide Run, AllWorkers, Counters, Responses;
    RunInv(steps);
    var w := Run(steps).main.w;
    var work := QueueEnds(steps, w);
    RunInv(steps + work);
    RunMore(steps + work, DrainWake);
    more := work + [DrainWake];
    assert steps + more == steps + work + [DrainWake];
  }

  /** So can the main thread, unless it waits in a drain, with the callbacks of the jobs done: they have then all been
      called. */
  lemma {:induction false} CallbacksEnd(steps: seq<Step>) returns (more: seq<Step>)
    requires !Run(steps).main.Draining?
    ensures var s, r := Run(steps), Run(steps + more);
      r.workers == s.workers && r.called == Handed(s) && r.main.Free? && r.completions == []
    decreases |Run(steps).completions|, if Run(steps).main.Calling? then 1 + |Run(steps).main.items| else 0
  {
    hide Run, AllWorkers, Counters, Responses, DrainInv;
    RunInv(steps);
    var s := Run(steps);
    if s.main.Free? && s.completions == [] {
      more := [];
      assert steps + more == steps;
      assert s.called + [] + [] == s.called;
    } else {
      var step := if s.main.Free? then ReadPipe else Callback;
      RunMore(steps, step);
      assert Handed(Next(s, step)) == Handed(s);
      var rest := CallbacksEnd(steps + [step]);
      more := [step] + rest;
      assert steps + more == steps + [step] + rest;
    }
  }

  predicate IsRequest(job: Job) { job.t.COMP_CLOSE_FILE? || job.t.COMP_AOF_FSYNC? || job.t.COMP_LAZY_FREE? }

  lemma HandedNext(s: State, step: Step)
    requires Inv(s) && Enabled(s, step) && forall job :: job in Handed(s) ==> IsRequest(job)
    ensures forall job :: job in Handed(Next(s, step)) ==> IsRequest(job)
  {
    hide AllWorkers, Counters, Responses, DrainInv;
    if step.Callback? && s.main.items != [] { assert s.main.items == [s.main.items[0]] + s.main.items[1..]; }
  }

  /** Only completion requests are called back. */
  lemma {:induction false} OnlyRequestsCalled(steps: seq<Step>)
    ensures forall job :: job in Handed(Run(steps)) ==> IsRequest(job)
  {
    hide Inv, Next, Enabled, Handed;
    if steps == [] {
      NothingHanded();
    } else {
      var n := |steps| - 1;
      var s := Run(steps[..n]);
      OnlyRequestsCalled(steps[..n]);
      RunInv(steps[..n]);
      if Enabled(s, steps[n]) { HandedNext(s, steps[n]); }
    }
  }

  lemma NothingHanded()
    ensures Handed(Start()) == []
  {
  }

  /** Every completion request that is submitted can be answered, from every state: the drain under way ends, its worker
      comes to it, and its callback is called. */
  lemma EveryRequestAnswered(steps: seq<Step>, job: Job) returns (more: seq<Step>)
    requires job in Submitted(steps) && IsRequest(job)
    ensures job in Run(steps + more).called
  {
    hide Run, Submitted, ForWorker, Inv, CompletionsOf, Handed;
    var w := WorkerOf(job.t);
    var first: seq<Step> := [];
    assert steps + first == steps;
    if Run(steps).main.Draining? { first := DrainEnds(steps); }
    var s1 := steps + first;
    SubmittedExactly(steps, w);
    InForWorker(Submitted(steps), job);
    SubmittedMore(steps, first, w);
    var work := QueueEnds(s1, w);
    var calls := CallbacksEnd(s1 + work);
    more := first + work + calls;
    assert steps + more == s1 + work + calls;
    Answered(s1 + work, w, job);
  }

  lemma SubmittedMore(steps: seq<Step>, more: seq<Step>, w: nat)
    requires w < WORKERS
    ensures |Run(steps).workers| == |Run(steps + more).workers| == WORKERS
    ensures Run(steps).workers[w].submitted <= Run(steps + more).workers[w].submitted
  {
    hide Run, ForWorker, Submitted;
    SubmittedExactly(steps, w);
    SubmittedExactly(steps + more, w);
    SubmittedGrow(steps, more, w);
  }

  lemma {:induction false} SubmittedGrow(steps: seq<Step>, more: seq<Step>, w: nat)
    ensures ForWorker(Submitted(steps), w) <= ForWorker(Submitted(steps + more), w)
    decreases |more|
  {
    hide WorkerOf;
    if more == [] {
      assert steps + more == steps;
    } else {
      var n := |more| - 1;
      SubmittedGrow(steps, more[..n], w);
      var all := steps + more;
      assert all[..|all| - 1] == steps + more[..n] && all[|all| - 1] == more[n];
      if more[n].Submit? {
        ForWorkerNext(Submitted(steps + more[..n]), more[n].job, w);
      } else {
        assert Submitted(all) == Submitted(steps + more[..n]);
      }
    }
  }

  lemma {:induction false} InForWorker(jobs: seq<Job>, job: Job)
    requires job in jobs
    ensures job in ForWorker(jobs, WorkerOf(job.t))
  {
    hide WorkerOf;
    var n := |jobs| - 1;
    if jobs[n] != job { InForWorker(jobs[..n], job); }
  }

  lemma Answered(steps: seq<Step>, w: nat, job: Job)
    requires w == WorkerOf(job.t) && IsRequest(job) && |Run(steps).workers| == WORKERS
    requires job in Run(steps).workers[w].executed
    ensures job in Handed(Run(steps))
  {
    hide Run, CompletionsOf, Handed;
    RunInv(steps);
    var s := Run(steps);
    CompletionsIn(s.workers[w].executed, w, job);
    CompletionsIn(Handed(s), w, job);
  }

  lemma {:induction false} CompletionsIn(jobs: seq<Job>, w: nat, job: Job)
    requires IsRequest(job) && WorkerOf(job.t) == w
    ensures job in CompletionsOf(jobs, w) <==> job in jobs
  {
    if jobs != [] {
      CompletionsIn(jobs[..|jobs| - 1], w, job);
      assert jobs == jobs[..|jobs| - 1] + [jobs[|jobs| - 1]];
    }
  }
}
