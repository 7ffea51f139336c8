/** Engine.Run of engine.go from the points on: buildMutants, the worker pool over runOne, and
    the report, composed. */
module Engine {
  import opened Wrappers
  import opened Select
  import opened Order
  import opened Positions
  import opened RunOne
  import opened Pipeline
  import opened Report
  import WorkerPool

  // What "go test" does for each mutant, which has its own overlay.
  type Commands = string -> Oracle

  // The interleaving the scheduler picks for given verdicts.
  type Schedule = seq<Verdict> -> seq<WorkerPool.State<Verdict>>

  ghost predicate IsSchedule(configured: int, schedule: Schedule)
  {
    forall verdicts :: EndsFinished(verdicts, configured, schedule(verdicts))
  }

  ghost predicate EndsFinished(verdicts: seq<Verdict>, configured: int, run: seq<WorkerPool.State<Verdict>>)
  {
    WorkerPool.IsRun(verdicts, WorkerPool.Workers(configured), run) && WorkerPool.Finished(run[|run| - 1])
  }

  function Code(s: Status): int
  {
    match s
    case Killed => KILLED
    case Survived => SURVIVED
    case Unsupported => UNSUPPORTED
    case Errored => ERRORED
  }

  function Ran(m: Mutant, v: Verdict): Result
  {
    Result(m.id, m.point, m.rule, Code(v.status), v.executed, v.timedOut)
  }

  // The result of a mutant has its identity and all of its verdict.
  ghost predicate IsResultOf(m: Mutant, v: Verdict, res: Result)
  {
    && res.id == m.id && res.point == m.point && res.rule == m.rule
    && res.executed == v.executed && res.timedOut == v.timedOut
    && match v.status
       case Killed => res.status == KILLED
       case Survived => res.status == SURVIVED
       case Unsupported => res.status == UNSUPPORTED
       case Errored => res.status == ERRORED
  }

  ghost predicate AreVerdicts(mutants: seq<Mutant>, commands: Commands, verdicts: seq<Verdict>)
  {
    |verdicts| == |mutants| && forall k :: 0 <= k < |mutants| ==> IsVerdict(mutants[k].selected, commands(mutants[k].id), verdicts[k])
  }

  /** Runner.Run over any interleaving: the result of each mutant, in index order. */
  method RunMutants(mutants: seq<Mutant>, commands: Commands, configured: int, schedule: Schedule)
    returns (results: seq<Result>, verdicts: seq<Verdict>)
    requires IsSchedule(configured, schedule)
    ensures AreVerdicts(mutants, commands, verdicts)
    ensures |results| == |mutants| && forall k :: 0 <= k < |mutants| ==> IsResultOf(mutants[k], verdicts[k], results[k])
  {
    hide IsVerdict, EndsFinished;
    verdicts := [];
    for k := 0 to |mutants|
      invariant |verdicts| == k && forall j :: 0 <= j < k ==> IsVerdict(mutants[j].selected, commands(mutants[j].id), verdicts[j])
    {
      var v := RunOne.RunOne(mutants[k].selected, commands(mutants[k].id));
      verdicts := verdicts + [v];
    }
    var run := schedule(verdicts);
    OutIsSequential(verdicts, configured, run);
    var pool := run[|run| - 1];
    results := [];
    for k := 0 to |mutants|
      invariant |results| == k && forall j :: 0 <= j < k ==> IsResultOf(mutants[j], verdicts[j], results[j])
    {
      results := results + [Ran(mutants[k], pool.out[k].value)];
    }
  }

  lemma OutIsSequential(verdicts: seq<Verdict>, configured: int, run: seq<WorkerPool.State<Verdict>>)
    requires EndsFinished(verdicts, configured, run)
    ensures run != [] && run[|run| - 1].out == WorkerPool.Sequential(verdicts)
  {
    WorkerPool.EveryRun(verdicts, configured, run);
  }

  // Some test command of the mutant fails.
  ghost predicate Detected(m: Mutant, commands: Commands)
  {
    exists p :: p in m.selected && Fails(m.selected, commands(m.id), p)
  }

  ghost function KilledOnes(mutants: seq<Mutant>, commands: Commands): set<nat>
  {
    set k: nat | k < |mutants| && Detected(mutants[k], commands)
  }

  ghost function UnsupportedOnes(mutants: seq<Mutant>): set<nat>
  {
    set k: nat | k < |mutants| && mutants[k].selected == map[]
  }

  ghost function SurvivingOnes(mutants: seq<Mutant>, commands: Commands): set<nat>
  {
    set k: nat | k < |mutants| && mutants[k].selected != map[] && !Detected(mutants[k], commands)
  }

  ghost function ErrorPairs(pairs: seq<(nat, nat)>, outcomes: Outcomes): set<nat>
  {
    set x: nat | x < |pairs| && IsError(outcomes(pairs[x].0, pairs[x].1))
  }

  ghost function WithCode(results: seq<Result>, code: int): set<nat>
  {
    set k: nat | k < |results| && results[k].status == code
  }

  lemma {:induction false} CountIsCard(results: seq<Result>, code: int)
    ensures CountCode(results, code) == |WithCode(results, code)|
  {
    if results != [] {
      var m := |results| - 1;
      CountIsCard(results[..m], code);
      assert WithCode(results, code) == WithCode(results[..m], code) + if results[m].status == code then {m} else {};
    }
  }

  lemma {:induction false} CountConcat(a: seq<Result>, b: seq<Result>, code: int)
    ensures CountCode(a + b, code) == CountCode(a, code) + CountCode(b, code)
  {
    if b == [] {
      assert a + b == a;
    } else {
      assert (a + b)[..|a + b| - 1] == a + b[..|b| - 1];
      CountConcat(a, b[..|b| - 1], code);
    }
  }

  lemma {:induction false} RunCounts(mutants: seq<Mutant>, commands: Commands, verdicts: seq<Verdict>, results: seq<Result>)
    requires AreVerdicts(mutants, commands, verdicts) && |results| == |mutants|
    requires forall k :: 0 <= k < |mutants| ==> IsResultOf(mutants[k], verdicts[k], results[k])
    ensures CountCode(results, KILLED) == |KilledOnes(mutants, commands)|
    ensures CountCode(results, SURVIVED) == |SurvivingOnes(mutants, commands)|
    ensures CountCode(results, UNSUPPORTED) == |UnsupportedOnes(mutants)|
    ensures CountCode(results, ERRORED) == 0
  {
    hide Detected;
    forall k: nat | k < |mutants|
      ensures results[k].status == KILLED <==> Detected(mutants[k], commands)
      ensures results[k].status == UNSUPPORTED <==> mutants[k].selected == map[]
      ensures results[k].status == SURVIVED <==> mutants[k].selected != map[] && !Detected(mutants[k], commands)
      ensures results[k].status != ERRORED
    {
      StatusOf(mutants[k], commands, verdicts[k]);
    }
    CountIsCard(results, KILLED);
    CountIsCard(results, SURVIVED);
    CountIsCard(results, UNSUPPORTED);
    CountIsCard(results, ERRORED);
    assert WithCode(results, KILLED) == KilledOnes(mutants, commands);
    assert WithCode(results, SURVIVED) == SurvivingOnes(mutants, commands);
    assert WithCode(results, UNSUPPORTED) == UnsupportedOnes(mutants);
    assert WithCode(results, ERRORED) == {};
  }

  lemma StatusOf(m: Mutant, commands: Commands, v: Verdict)
    requires IsVerdict(m.selected, commands(m.id), v)
    ensures v.status == Killed <==> Detected(m, commands)
    ensures v.status == Unsupported <==> m.selected == map[]
    ensures v.status == Survived <==> m.selected != map[] && !Detected(m, commands)
    ensures v.status != Status.Errored
  {
    hide Fails;
    assert m.selected == map[] ==> !Detected(m, commands);
  }

  lemma {:induction false} ErrorCounts(pairs: seq<(nat, nat)>, outcomes: Outcomes)
    ensures |Immediate(pairs, outcomes)| == |ErrorPairs(pairs, outcomes)|
  {
    hide IsError;
    if pairs != [] {
      var m := |pairs| - 1;
      ErrorCounts(pairs[..m], outcomes);
      assert ErrorPairs(pairs, outcomes) == ErrorPairs(pairs[..m], outcomes) + if IsError(outcomes(pairs[m].0, pairs[m].1)) then {m} else {};
    }
  }

  lemma {:induction false} ErrorCodes(pairs: seq<(nat, nat)>, outcomes: Outcomes, code: int)
    ensures CountCode(Immediate(pairs, outcomes), code) == if code == ERRORED then |Immediate(pairs, outcomes)| else 0
  {
    hide Immediate;
    var errors := Immediate(pairs, outcomes);
    forall k: nat | k < |errors|
      ensures errors[k].status == ERRORED
    {
      var x := ImmediateNumber(pairs, outcomes, k);
    }
    CountIsCard(errors, code);
    assert WithCode(errors, code) == if code == ERRORED then Indices(|errors|) else {};
  }

  // The report's entry for a mutant: its identity, its verdict, and the executed packages with
  // their patterns in strictly increasing order of the packages.
  ghost predicate IsEntryOf(m: Mutant, v: Verdict, e: MutantResult)
  {
    && e.id == m.id && e.point == m.point && e.rule == m.rule && e.status == v.status && e.timedOut == v.timedOut
    && (forall i, j :: 0 <= i < j < |e.executed| ==> Less(e.executed[i].0, e.executed[j].0))
    && forall p, pattern :: (p, pattern) in e.executed <==> p in v.executed && v.executed[p] == pattern
  }

  // The entry for pair x whose turn ended in an error.
  ghost predicate IsErrorEntry(pairs: seq<(nat, nat)>, x: nat, e: MutantResult)
  {
    && x < |pairs| && IsID(e.id, x + 1) && e.point == pairs[x].0 && e.rule == pairs[x].1
    && e.status == Status.Errored && e.executed == [] && !e.timedOut
  }

  lemma EntryOfResult(m: Mutant, v: Verdict, res: Result, e: MutantResult)
    requires IsResultOf(m, v, res) && EntryFor(res, e)
    ensures IsEntryOf(m, v, e)
  {
    hide Less;
    forall p, pattern
      ensures (p, pattern) in e.executed <==> p in v.executed && v.executed[p] == pattern
    {
      if (p, pattern) in e.executed {
        var i :| 0 <= i < |e.executed| && e.executed[i] == (p, pattern);
      }
    }
  }

  lemma EntryOfError(pairs: seq<(nat, nat)>, x: nat, res: Result, e: MutantResult)
    requires IsErrorOf(pairs, x, res) && EntryFor(res, e)
    ensures IsErrorEntry(pairs, x, e)
  {
  }

  // The entries of the report: first the errors, then the mutants.
  ghost predicate ListsAll(pairs: seq<(nat, nat)>, errors: seq<nat>, mutants: seq<Mutant>, verdicts: seq<Verdict>, entries: seq<MutantResult>)
  {
    && |verdicts| == |mutants| && |entries| == |errors| + |mutants|
    && (forall k :: 0 <= k < |errors| ==> IsErrorEntry(pairs, errors[k], entries[k]))
    && forall k :: 0 <= k < |mutants| ==> IsEntryOf(mutants[k], verdicts[k], entries[|errors| + k])
  }

  lemma EntriesListed(pairs: seq<(nat, nat)>, errors: seq<nat>, mutants: seq<Mutant>, verdicts: seq<Verdict>,
                      baseResults: seq<Result>, runResults: seq<Result>, entries: seq<MutantResult>)
    requires |errors| == |baseResults| && |runResults| == |mutants| == |verdicts| && |entries| == |baseResults| + |runResults|
    requires forall k :: 0 <= k < |errors| ==> IsErrorOf(pairs, errors[k], baseResults[k])
    requires forall k :: 0 <= k < |mutants| ==> IsResultOf(mutants[k], verdicts[k], runResults[k])
    requires forall i :: 0 <= i < |entries| ==> EntryFor((baseResults + runResults)[i], entries[i])
    ensures ListsAll(pairs, errors, mutants, verdicts, entries)
  {
    hide IsErrorOf, IsResultOf, EntryFor, IsErrorEntry, IsEntryOf;
    forall k | 0 <= k < |errors|
      ensures IsErrorEntry(pairs, errors[k], entries[k])
    {
      EntryOfError(pairs, errors[k], baseResults[k], entries[k]);
    }
    forall k | 0 <= k < |mutants|
      ensures IsEntryOf(mutants[k], verdicts[k], entries[|errors| + k])
    {
      EntryOfResult(mutants[k], verdicts[k], runResults[k], entries[|errors| + k]);
    }
  }

  // The mutants are those of exactly the pairs whose turn gives one, in order: each with its
  // pair's number, point and rule, and with the selection for its point.
  ghost predicate AreRunnable(selector: Selector, importedBy: map<string, seq<string>>, pairs: seq<(nat, nat)>, outcomes: Outcomes,
                              runs: seq<nat>, mutants: seq<Mutant>)
  {
    && Increasing(runs) && |runs| == |mutants|
    && (forall x: nat :: x in runs <==> x < |pairs| && IsRunnable(outcomes(pairs[x].0, pairs[x].1)))
    && forall k :: 0 <= k < |mutants| ==> IsRunnableOf(selector, importedBy, pairs, runs[k], mutants[k])
  }

  ghost predicate IsRunnableOf(selector: Selector, importedBy: map<string, seq<string>>, pairs: seq<(nat, nat)>, x: nat, m: Mutant)
  {
    && x < |pairs| && IsID(m.id, x + 1) && m.point == pairs[x].0 && m.rule == pairs[x].1 && m.point < |selector.points|
    && IsSelect(importedBy, selector.tests, selector.backend(m.point), selector.points[m.point], m.selected)
  }

  lemma {:induction false} MutantsRunnable(selector: Selector, importedBy: map<string, seq<string>>, pairs: seq<(nat, nat)>, outcomes: Outcomes, mutants: seq<Mutant>)
    requires AreMutants(selector, importedBy, pairs, ToRun(pairs, outcomes), mutants)
    ensures AreRunnable(selector, importedBy, pairs, outcomes, ToRun(pairs, outcomes), mutants)
  {
    hide ToRun, IsSelect, IsRunnable, IsID;
    ToRunListed(pairs, outcomes);
    forall k | 0 <= k < |mutants|
      ensures IsRunnableOf(selector, importedBy, pairs, ToRun(pairs, outcomes)[k], mutants[k])
    {
      var x := ToRun(pairs, outcomes)[k];
      assert IsMutant(selector, importedBy, pairs, x, mutants[k]);
      MutantIDIsID(x + 1);
    }
  }

  /** From the points to the report, over any stage outcomes, any test commands, any worker
      setting and any interleaving: the report lists the immediate errors and then the
      mutants in order; it counts as killed the mutants with a failing command, as unsupported
      those with an empty selection, as survived the others, and as errored the pairs whose
      turn ended in an error; and with the unchanged pairs it accounts for all pairs. */
  method EngineRun(rules: seq<nat>, outcomes: Outcomes, selector: Selector, ghost importedBy: map<string, seq<string>>,
                   commands: Commands, configured: int, schedule: Schedule)
    returns (report: Report, mutants: seq<Mutant>, verdicts: seq<Verdict>, ghost pairs: seq<(nat, nat)>, ghost errors: seq<nat>, ghost runs: seq<nat>)
    requires IsImportedBy(selector.project, importedBy) && |rules| == |selector.points|
    requires IsSchedule(configured, schedule)
    ensures InTurn(rules, pairs)
    ensures Increasing(errors) && forall x: nat :: x in errors <==> x < |pairs| && IsError(outcomes(pairs[x].0, pairs[x].1))
    ensures AreRunnable(selector, importedBy, pairs, outcomes, runs, mutants)
    ensures AreVerdicts(mutants, commands, verdicts)
    ensures ListsAll(pairs, errors, mutants, verdicts, report.mutants)
    ensures report.killed == |KilledOnes(mutants, commands)| && report.survived == |SurvivingOnes(mutants, commands)|
    ensures report.unsupported == |UnsupportedOnes(mutants)| && report.errored == |errors|
    ensures report.total == |report.mutants| == report.killed + report.survived + report.unsupported + report.errored
    ensures report.total + UnchangedCount(pairs, outcomes) == |pairs|
  {
    hide EntryFor, AreVerdicts, AreMutants, AreRunnable, IsSchedule, IsImportedBy, KilledOnes, SurvivingOnes, UnsupportedOnes, ErrorPairs;
    hide InTurn, Pairs, Immediate, ToRun, UnchangedCount, CountCode, CountStatus, IsResultOf, IsErrorOf, IsError, ListsAll;
    pairs := Pairs(rules);
    PairsInTurn(rules);
    var baseResults;
    baseResults, mutants := BuildMutants(rules, outcomes, selector, importedBy);
    runs := ToRun(pairs, outcomes);
    MutantsRunnable(selector, importedBy, pairs, outcomes, mutants);
    errors := ImmediateListed(pairs, outcomes);
    var runResults;
    runResults, verdicts := RunMutants(mutants, commands, configured, schedule);
    var results := baseResults + runResults;
    report := ComposeReport(results);
    MutantCount(selector, importedBy, pairs, outcomes, mutants);
    EveryPairOnce(pairs, outcomes);
    Balanced(pairs, outcomes, mutants, commands, verdicts, runResults, report);
    ErrorCounts(pairs, outcomes);
    SameLength(mutants, commands, verdicts);
    EntriesListed(pairs, errors, mutants, verdicts, baseResults, runResults, report.mutants);
  }

  lemma SameLength(mutants: seq<Mutant>, commands: Commands, verdicts: seq<Verdict>)
    requires AreVerdicts(mutants, commands, verdicts)
    ensures |verdicts| == |mutants|
  {
  }

  lemma {:induction false} MutantCount(selector: Selector, importedBy: map<string, seq<string>>, pairs: seq<(nat, nat)>, outcomes: Outcomes, mutants: seq<Mutant>)
    requires AreMutants(selector, importedBy, pairs, ToRun(pairs, outcomes), mutants)
    ensures |mutants| == |ToRun(pairs, outcomes)|
  {
  }

  lemma {:induction false} Balanced(pairs: seq<(nat, nat)>, outcomes: Outcomes, mutants: seq<Mutant>, commands: Commands, verdicts: seq<Verdict>,
                 runResults: seq<Result>, report: Report)
    requires AreVerdicts(mutants, commands, verdicts) && |runResults| == |mutants|
    requires forall k :: 0 <= k < |mutants| ==> IsResultOf(mutants[k], verdicts[k], runResults[k])
    requires var results := Immediate(pairs, outcomes) + runResults;
      && report.total == |results| == |report.mutants|
      && report.killed == CountCode(results, KILLED) && report.survived == CountCode(results, SURVIVED)
      && report.unsupported == CountCode(results, UNSUPPORTED) && report.errored == CountCode(results, ERRORED)
    ensures report.killed == |KilledOnes(mutants, commands)| && report.survived == |SurvivingOnes(mutants, commands)|
    ensures report.unsupported == |UnsupportedOnes(mutants)| && report.errored == |ErrorPairs(pairs, outcomes)|
    ensures report.total == report.killed + report.survived + report.unsupported + report.errored
  {
    hide AreVerdicts, Immediate, CountCode, Detected, KilledOnes, SurvivingOnes, UnsupportedOnes, ErrorPairs;
    ErrorCounts(pairs, outcomes);
    ErrorCodes(pairs, outcomes, KILLED);
    ErrorCodes(pairs, outcomes, SURVIVED);
    ErrorCodes(pairs, outcomes, UNSUPPORTED);
    ErrorCodes(pairs, outcomes, ERRORED);
    RunCounts(mutants, commands, verdicts, runResults);
    CountConcat(Immediate(pairs, outcomes), runResults, KILLED);
    CountConcat(Immediate(pairs, outcomes), runResults, SURVIVED);
    CountConcat(Immediate(pairs, outcomes), runResults, UNSUPPORTED);
    CountConcat(Immediate(pairs, outcomes), runResults, ERRORED);
    EveryMutantCounted(mutants, commands);
  }

  lemma EveryMutantCounted(mutants: seq<Mutant>, commands: Commands)
    ensures |KilledOnes(mutants, commands)| + |SurvivingOnes(mutants, commands)| + |UnsupportedOnes(mutants)| == |mutants|
  {
    hide Fails;
    var killed, survived, unsupported := KilledOnes(mutants, commands), SurvivingOnes(mutants, commands), UnsupportedOnes(mutants);
    assert killed !! survived && killed + survived !! unsupported;
    assert killed + survived + unsupported == Indices(|mutants|);
  }
}
