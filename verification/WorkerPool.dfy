/** execution.Runner.Run as a transition system: one producer, W workers and the collector,
    joined by two unbuffered channels and a WaitGroup. An unbuffered send and its receive are
    one step; a receive from a closed channel reports the end of the range loop; a send on, or
    a close of, a closed channel panics (The Go Programming Language Specification, sections
    "Channel types", "Send statements" and "Close"). */
module WorkerPool {
  import opened Wrappers

  // Feeding(next): about to offer job "next", or to close "jobs" when none is left.
  datatype Producer = Feeding(next: nat) | WaitingForGroup | ClosingResults | ProducerDone
  datatype Worker<R> = Idle | Running(job: nat) | Offering(index: nat, result: R) | Exited

  datatype State<R> = State(
    producer: Producer,
    workers: seq<Worker<R>>,
    group: int,               // the WaitGroup counter
    jobsClosed: bool,
    resultsClosed: bool,
    out: seq<Option<R>>,      // None is the zero value make() put there
    returned: bool,           // the collector has left its range loop
    panicked: bool
  )

  // verdicts[i] is what runOne yields for mutant i.
  function Init<R>(verdicts: seq<R>, workers: nat): State<R>
  {
    State(Feeding(0), seq(workers, i => Idle), workers, false, false, seq(|verdicts|, i => None), false, false)
  }

  // The workers the runner starts: at least one.
  function Workers(configured: int): (r: nat)
    ensures r >= 1 && (configured >= 1 ==> r == configured) && (configured < 1 ==> r == 1)
  {
    if configured <= 0 then 1 else configured
  }

  datatype Step = Handoff(w: nat) | CloseJobs | Finish(w: nat) | Deliver(w: nat) | Exit(w: nat) | WaitOver | CloseResults | Return

  ghost predicate Enabled<R>(verdicts: seq<R>, s: State<R>, step: Step)
  {
    && !s.panicked
    && match step
       case Handoff(w) => s.producer.Feeding? && s.producer.next < |verdicts| && w < |s.workers| && (s.workers[w].Idle? || s.jobsClosed)
       case CloseJobs => s.producer.Feeding? && s.producer.next >= |verdicts|
       case Finish(w) => w < |s.workers| && s.workers[w].Running? && s.workers[w].job < |verdicts|
       case Deliver(w) => w < |s.workers| && s.workers[w].Offering? && (!s.returned || s.resultsClosed)
       case Exit(w) => w < |s.workers| && s.workers[w].Idle? && s.jobsClosed
       case WaitOver => s.producer.WaitingForGroup? && s.group == 0
       case CloseResults => s.producer.ClosingResults?
       case Return => !s.returned && s.resultsClosed
  }

  ghost function Next<R>(verdicts: seq<R>, s: State<R>, step: Step): State<R>
    requires Enabled(verdicts, s, step)
  {
    match step
    case Handoff(w) =>
      if s.jobsClosed then s.(panicked := true)
      else s.(producer := Feeding(s.producer.next + 1), workers := s.workers[w := Running(s.producer.next)])
    case CloseJobs =>
      if s.jobsClosed then s.(panicked := true)
      else s.(producer := WaitingForGroup, jobsClosed := true)
    case Finish(w) =>
      var i := s.workers[w].job;
      s.(workers := s.workers[w := Offering(i, verdicts[i])])
    case Deliver(w) =>
      var item := s.workers[w];
      if s.resultsClosed || item.index >= |s.out| then s.(panicked := true)
      else s.(workers := s.workers[w := Idle], out := s.out[item.index := Some(item.result)])
    case Exit(w) =>
      // WaitGroup.Done panics on a negative counter.
      if s.group <= 0 then s.(panicked := true)
      else s.(workers := s.workers[w := Exited], group := s.group - 1)
    case WaitOver => s.(producer := ClosingResults)
    case CloseResults =>
      if s.resultsClosed then s.(panicked := true)
      else s.(producer := ProducerDone, resultsClosed := true)
    case Return => s.(returned := true)
  }

  ghost predicate IsStep<R>(verdicts: seq<R>, s: State<R>, step: Step, s': State<R>)
  {
    Enabled(verdicts, s, step) && s' == Next(verdicts, s, step)
  }

  ghost predicate Follows<R>(verdicts: seq<R>, s: State<R>, s': State<R>)
  {
    exists step :: IsStep(verdicts, s, step, s')
  }

  ghost predicate IsRun<R>(verdicts: seq<R>, workers: nat, run: seq<State<R>>)
  {
    && run != [] && run[0] == Init(verdicts, workers)
    && forall k, l :: 0 <= k && l == k + 1 < |run| ==> Follows(verdicts, run[k], run[l])
  }

  // A goroutine holds job i while it runs it or waits to send its result.
  predicate Holds<R>(worker: Worker<R>, i: nat)
  {
    (worker.Running? && worker.job == i) || (worker.Offering? && worker.index == i)
  }

  function Fed<R>(verdicts: seq<R>, s: State<R>): nat
  {
    if s.producer.Feeding? then s.producer.next else |verdicts|
  }

  function Live<R>(workers: seq<Worker<R>>): nat
  {
    if workers == [] then 0 else Live(workers[..|workers| - 1]) + if workers[|workers| - 1].Exited? then 0 else 1
  }

  // Where each job is: still with the producer, held by exactly one worker, or delivered.
  ghost predicate JobsPlaced<R>(verdicts: seq<R>, s: State<R>)
  {
    && |s.out| == |verdicts| && Fed(verdicts, s) <= |verdicts|
    && (forall w, i: nat {:trigger Holds(s.workers[w], i)} :: 0 <= w < |s.workers| && Holds(s.workers[w], i) ==> i < Fed(verdicts, s) && s.out[i].None?)
    && (forall v, w, i: nat :: 0 <= v < w < |s.workers| && Holds(s.workers[v], i) ==> !Holds(s.workers[w], i))
    && (forall i :: 0 <= i < Fed(verdicts, s) && s.out[i].None? ==> exists w :: 0 <= w < |s.workers| && Holds(s.workers[w], i))
    && (forall i :: Fed(verdicts, s) <= i < |verdicts| ==> s.out[i].None?)
  }

  ghost predicate ResultsRight<R>(verdicts: seq<R>, s: State<R>)
  {
    && |s.out| == |verdicts|
    && (forall i :: 0 <= i < |verdicts| && s.out[i].Some? ==> s.out[i].value == verdicts[i])
    && (forall w :: 0 <= w < |s.workers| && s.workers[w].Offering? ==> s.workers[w].index < |verdicts| && s.workers[w].result == verdicts[s.workers[w].index])
  }

  ghost predicate ChannelsRight<R>(verdicts: seq<R>, s: State<R>)
  {
    && !s.panicked
    && s.group == Live(s.workers)
    && (s.jobsClosed <==> !s.producer.Feeding?)
    && (s.resultsClosed <==> s.producer.ProducerDone?)
    && (s.producer.ClosingResults? || s.producer.ProducerDone? ==> s.group == 0)
    && (s.returned ==> s.resultsClosed)
    && (forall w :: 0 <= w < |s.workers| && s.workers[w].Exited? ==> s.jobsClosed)
  }

  ghost predicate Inv<R>(verdicts: seq<R>, s: State<R>)
  {
    |s.workers| > 0 && JobsPlaced(verdicts, s) && ResultsRight(verdicts, s) && ChannelsRight(verdicts, s)
  }

  lemma {:induction false} LiveUpdate<R>(workers: seq<Worker<R>>, w: nat, x: Worker<R>)
    requires w < |workers|
    ensures Live(workers[w := x]) == Live(workers) - (if workers[w].Exited? then 0 else 1) + (if x.Exited? then 0 else 1)
  {
    var m := |workers| - 1;
    if w == m {
      assert workers[w := x][..m] == workers[..m];
    } else {
      assert workers[w := x][..m] == workers[..m][w := x];
      LiveUpdate(workers[..m], w, x);
    }
  }

  lemma {:induction false} NoneLive<R>(workers: seq<Worker<R>>)
    ensures Live(workers) == 0 <==> forall w :: 0 <= w < |workers| ==> workers[w].Exited?
    ensures Live(workers) <= |workers|
    ensures (forall w :: 0 <= w < |workers| ==> !workers[w].Exited?) ==> Live(workers) == |workers|
  {
    if workers != [] {
      NoneLive(workers[..|workers| - 1]);
      assert forall w :: 0 <= w < |workers| - 1 ==> workers[..|workers| - 1][w] == workers[w];
    }
  }

  lemma InitInv<R>(verdicts: seq<R>, workers: nat)
    requires workers > 0
    ensures Inv(verdicts, Init(verdicts, workers))
  {
    NoneLive(Init(verdicts, workers).workers);
  }

  // A worker that holds a job after a step held it before, unless it has just been handed the job.
  lemma HeldBefore<R>(verdicts: seq<R>, s: State<R>, step: Step, w: nat, i: nat)
    requires Inv(verdicts, s) && Enabled(verdicts, s, step)
    requires w < |s.workers| && Holds(Next(verdicts, s, step).workers[w], i)
    ensures Holds(s.workers[w], i) || (step == Handoff(w) && i == s.producer.next)
    ensures Holds(s.workers[w], i) ==> step != Deliver(w) && !(step.Handoff? && i == s.producer.next)
  {
    NoneLive(s.workers);
  }

  lemma StepPlaces<R>(verdicts: seq<R>, s: State<R>, step: Step)
    requires Inv(verdicts, s) && Enabled(verdicts, s, step)
    ensures JobsPlaced(verdicts, Next(verdicts, s, step))
  {
    var s' := Next(verdicts, s, step);
    NoneLive(s.workers);
    assert step.Deliver? ==> Holds(s.workers[step.w], s.workers[step.w].index);
    forall w, i: nat | 0 <= w < |s'.workers| && Holds(s'.workers[w], i)
      ensures i < Fed(verdicts, s') && s'.out[i].None?
    {
      HeldBefore(verdicts, s, step, w, i);
    }
    forall v, w, i: nat | 0 <= v < w < |s'.workers| && Holds(s'.workers[v], i)
      ensures !Holds(s'.workers[w], i)
    {
      HeldBefore(verdicts, s, step, v, i);
      if Holds(s'.workers[w], i) { HeldBefore(verdicts, s, step, w, i); }
    }
    forall i | 0 <= i < Fed(verdicts, s') && s'.out[i].None?
      ensures exists w :: 0 <= w < |s'.workers| && Holds(s'.workers[w], i)
    {
      StillHeld(verdicts, s, step, i);
    }
  }

  lemma StillHeld<R>(verdicts: seq<R>, s: State<R>, step: Step, i: nat)
    requires Inv(verdicts, s) && Enabled(verdicts, s, step)
    requires var s' := Next(verdicts, s, step); i < Fed(verdicts, s') && i < |s'.out| && s'.out[i].None?
    ensures var s' := Next(verdicts, s, step); exists w :: 0 <= w < |s'.workers| && Holds(s'.workers[w], i)
  {
    hide ResultsRight;
    var s' := Next(verdicts, s, step);
    if step.Handoff? && i == s.producer.next {
      assert Holds(s'.workers[step.w], i);
    } else {
      var w :| 0 <= w < |s.workers| && Holds(s.workers[w], i);
      assert Holds(s'.workers[w], i);
    }
  }

  lemma StepResults<R>(verdicts: seq<R>, s: State<R>, step: Step)
    requires Inv(verdicts, s) && Enabled(verdicts, s, step)
    ensures ResultsRight(verdicts, Next(verdicts, s, step))
  {
  }

  lemma StepChannels<R>(verdicts: seq<R>, s: State<R>, step: Step)
    requires Inv(verdicts, s) && Enabled(verdicts, s, step)
    ensures ChannelsRight(verdicts, Next(verdicts, s, step)) && |Next(verdicts, s, step).workers| == |s.workers|
  {
    var s' := Next(verdicts, s, step);
    NoneLive(s.workers);
    match step {
      case Handoff(w) => LiveUpdate(s.workers, w, s'.workers[w]);
      case Finish(w) => LiveUpdate(s.workers, w, s'.workers[w]);
      case Deliver(w) => LiveUpdate(s.workers, w, s'.workers[w]);
      case Exit(w) => LiveUpdate(s.workers, w, s'.workers[w]);
      case _ =>
    }
  }

  /** Every step keeps the invariant; in particular no send or close ever hits a closed channel. */
  lemma StepInv<R>(verdicts: seq<R>, s: State<R>, step: Step)
    requires Inv(verdicts, s) && Enabled(verdicts, s, step)
    ensures Inv(verdicts, Next(verdicts, s, step))
  {
    StepPlaces(verdicts, s, step);
    StepResults(verdicts, s, step);
    StepChannels(verdicts, s, step);
  }

  ghost predicate Finished<R>(s: State<R>)
  {
    s.returned && s.producer.ProducerDone? && forall w :: 0 <= w < |s.workers| ==> s.workers[w].Exited?
  }

  /** Deadlock freedom: while anything is unfinished, some step is enabled. */
  lemma Progress<R>(verdicts: seq<R>, s: State<R>) returns (step: Step)
    requires Inv(verdicts, s) && !Finished(s)
    ensures Enabled(verdicts, s, step)
  {
    NoneLive(s.workers);
    if w :| 0 <= w < |s.workers| && s.workers[w].Running? {
      var i := s.workers[w].job;
      assert Holds(s.workers[w], i);
      assert i < Fed(verdicts, s);
      return Finish(w);
    } else if w :| 0 <= w < |s.workers| && s.workers[w].Offering? {
      return Deliver(w);
    } else if s.producer.Feeding? {
      assert s.workers[0].Idle?;
      return if s.producer.next < |verdicts| then Handoff(0) else CloseJobs;
    } else if w :| 0 <= w < |s.workers| && s.workers[w].Idle? {
      return Exit(w);
    } else if s.producer.WaitingForGroup? {
      return WaitOver;
    } else if s.producer.ClosingResults? {
      return CloseResults;
    } else {
      return Return;
    }
  }

  function Weight<R>(worker: Worker<R>): nat
  {
    match worker
    case Idle => 1
    case Running(_) => 3
    case Offering(_, _) => 2
    case Exited => 0
  }

  function WorkerWork<R>(workers: seq<Worker<R>>): nat
  {
    if workers == [] then 0 else WorkerWork(workers[..|workers| - 1]) + Weight(workers[|workers| - 1])
  }

  /** Work left: three steps a job, one exit a worker, three steps of the producer's
      shutdown and the collector's return. */
  function Measure<R>(verdicts: seq<R>, s: State<R>): int
  {
    3 * (|verdicts| - Fed(verdicts, s)) + WorkerWork(s.workers)
    + (match s.producer case Feeding(_) => 3 case WaitingForGroup => 2 case ClosingResults => 1 case ProducerDone => 0)
    + if s.returned then 0 else 1
  }

  lemma {:induction false} WorkUpdate<R>(workers: seq<Worker<R>>, w: nat, x: Worker<R>)
    requires w < |workers|
    ensures WorkerWork(workers[w := x]) == WorkerWork(workers) - Weight(workers[w]) + Weight(x)
  {
    var m := |workers| - 1;
    if w == m {
      assert workers[w := x][..m] == workers[..m];
    } else {
      assert workers[w := x][..m] == workers[..m][w := x];
      WorkUpdate(workers[..m], w, x);
    }
  }

  /** Every step of every interleaving uses up exactly one unit of work. */
  lemma StepConsumes<R>(verdicts: seq<R>, s: State<R>, step: Step)
    requires Inv(verdicts, s) && Enabled(verdicts, s, step)
    ensures Measure(verdicts, Next(verdicts, s, step)) == Measure(verdicts, s) - 1 >= 0
  {
    StepInv(verdicts, s, step);
    var s' := Next(verdicts, s, step);
    match step {
      case Handoff(w) => WorkUpdate(s.workers, w, s'.workers[w]);
      case Finish(w) => WorkUpdate(s.workers, w, s'.workers[w]);
      case Deliver(w) => WorkUpdate(s.workers, w, s'.workers[w]);
      case Exit(w) => WorkUpdate(s.workers, w, s'.workers[w]);
      case _ =>
    }
  }

  lemma {:induction false} InitWork<R>(workers: seq<Worker<R>>)
    requires forall w :: 0 <= w < |workers| ==> workers[w].Idle?
    ensures WorkerWork(workers) == |workers|
  {
    if workers != [] { InitWork(workers[..|workers| - 1]); }
  }

  lemma {:induction false} RunInv<R>(verdicts: seq<R>, workers: nat, run: seq<State<R>>, k: nat)
    requires workers > 0 && IsRun(verdicts, workers, run) && k < |run|
    ensures Inv(verdicts, run[k])
    ensures Measure(verdicts, run[k]) == 3 * |verdicts| + workers + 4 - k
  {
    if k == 0 {
      InitInv(verdicts, workers);
      InitWork(run[0].workers);
    } else {
      RunInv(verdicts, workers, run, k - 1);
      var step :| IsStep(verdicts, run[k - 1], step, run[k]);
      StepInv(verdicts, run[k - 1], step);
      StepConsumes(verdicts, run[k - 1], step);
    }
  }

  // What a sequential loop over the mutants would return.
  function Sequential<R>(verdicts: seq<R>): seq<Option<R>>
  {
    seq(|verdicts|, i requires 0 <= i < |verdicts| => Some(verdicts[i]))
  }

  /** When the collector has returned, "out" is the sequential map, in every interleaving. */
  lemma ReturnedIsSequential<R>(verdicts: seq<R>, s: State<R>)
    requires Inv(verdicts, s) && s.returned
    ensures s.out == Sequential(verdicts)
  {
    NoneLive(s.workers);
    forall i | 0 <= i < |verdicts|
      ensures s.out[i] == Some(verdicts[i])
    {
      assert forall w :: 0 <= w < |s.workers| ==> !Holds(s.workers[w], i);
    }
  }

  ghost predicate Stuck<R>(verdicts: seq<R>, s: State<R>)
  {
    forall step: Step {:trigger Enabled(verdicts, s, step)} :: !Enabled(verdicts, s, step)
  }

  /** For any number of mutants, any configured worker count and any interleaving: no state
      panics, a run that cannot be extended is finished and holds the sequential result, and
      no run is longer than 3 * mutants + workers + 4 steps. */
  lemma EveryRun<R>(verdicts: seq<R>, configured: int, run: seq<State<R>>)
    requires IsRun(verdicts, Workers(configured), run)
    ensures |run| <= 3 * |verdicts| + Workers(configured) + 5
    ensures forall k :: 0 <= k < |run| ==> !run[k].panicked
    ensures Stuck(verdicts, run[|run| - 1]) <==> Finished(run[|run| - 1])
    ensures Finished(run[|run| - 1]) <==> |run| == 3 * |verdicts| + Workers(configured) + 5
    ensures Finished(run[|run| - 1]) ==> run[|run| - 1].out == Sequential(verdicts)
  {
    var n := Workers(configured);
    forall k | 0 <= k < |run|
      ensures !run[k].panicked
    {
      RunInv(verdicts, n, run, k);
    }
    var last := run[|run| - 1];
    RunInv(verdicts, n, run, |run| - 1);
    MeasureZero(verdicts, last);
    if Finished(last) {
      ReturnedIsSequential(verdicts, last);
      forall step ensures !Enabled(verdicts, last, step) {
        if Enabled(verdicts, last, step) { StepConsumes(verdicts, last, step); }
      }
    } else {
      var step := Progress(verdicts, last);
    }
  }

  lemma OneStepMore<R>(verdicts: seq<R>, workers: nat, run: seq<State<R>>, step: Step)
    requires IsRun(verdicts, workers, run) && Enabled(verdicts, run[|run| - 1], step)
    ensures IsRun(verdicts, workers, run + [Next(verdicts, run[|run| - 1], step)])
  {
    hide Enabled, Next, Init, Follows;
    var s' := Next(verdicts, run[|run| - 1], step);
    ItFollows(verdicts, run[|run| - 1], step, s');
    var run' := run + [s'];
    forall k, l | 0 <= k && l == k + 1 < |run'|
      ensures Follows(verdicts, run'[k], run'[l])
    {
      if l < |run| {
        assert Follows(verdicts, run[k], run[l]);
      }
    }
  }

  lemma ItFollows<R>(verdicts: seq<R>, s: State<R>, step: Step, s': State<R>)
    requires Enabled(verdicts, s, step) && s' == Next(verdicts, s, step)
    ensures Follows(verdicts, s, s')
  {
    assert IsStep(verdicts, s, step, s');
  }

  /** Every run can be completed. */
  lemma {:induction false} Complete<R>(verdicts: seq<R>, configured: int, run: seq<State<R>>) returns (whole: seq<State<R>>)
    requires IsRun(verdicts, Workers(configured), run)
    ensures IsRun(verdicts, Workers(configured), whole) && run <= whole && Finished(whole[|whole| - 1])
    decreases 3 * |verdicts| + Workers(configured) + 5 - |run|
  {
    hide Inv, Finished, Measure;
    EveryRun(verdicts, configured, run);
    var last := run[|run| - 1];
    if Finished(last) {
      whole := run;
    } else {
      RunInv(verdicts, Workers(configured), run, |run| - 1);
      var step := Progress(verdicts, last);
      var run' := run + [Next(verdicts, last, step)];
      OneStepMore(verdicts, Workers(configured), run, step);
      EveryRun(verdicts, configured, run');
      whole := Complete(verdicts, configured, run');
    }
  }

  lemma {:induction false} NoWork<R>(workers: seq<Worker<R>>)
    ensures WorkerWork(workers) == 0 <==> forall w :: 0 <= w < |workers| ==> workers[w].Exited?
  {
    if workers != [] {
      NoWork(workers[..|workers| - 1]);
      assert forall w :: 0 <= w < |workers| - 1 ==> workers[..|workers| - 1][w] == workers[w];
    }
  }

  lemma MeasureZero<R>(verdicts: seq<R>, s: State<R>)
    requires Inv(verdicts, s)
    ensures 0 <= Measure(verdicts, s)
    ensures Measure(verdicts, s) == 0 <==> Finished(s)
  {
    NoWork(s.workers);
  }
}
