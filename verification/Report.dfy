/** execution.Summarize (internal/execution/report.go) and composeReport (engine.go). */
module Report {
  import opened Order
  import opened RunOne
  import opened Pipeline

  datatype MutantResult = MutantResult(id: string, point: nat, rule: nat, status: Status, executed: seq<(string, string)>, timedOut: bool)
  datatype Report = Report(total: nat, killed: nat, survived: nat, unsupported: nat, errored: nat, mutants: seq<MutantResult>)

  function MapStatus(status: int): Status
  {
    if status == KILLED then Killed
    else if status == SURVIVED then Survived
    else if status == UNSUPPORTED then Unsupported
    else RunOne.Errored
  }

  function CountCode(results: seq<Result>, code: int): nat
  {
    if results == [] then 0
    else CountCode(results[..|results| - 1], code) + if results[|results| - 1].status == code then 1 else 0
  }

  function CountStatus(mutants: seq<MutantResult>, status: Status): nat
  {
    if mutants == [] then 0
    else CountStatus(mutants[..|mutants| - 1], status) + if mutants[|mutants| - 1].status == status then 1 else 0
  }

  // The entry for one result: same identity, mapped status, executed packages sorted.
  ghost predicate EntryFor(res: Result, m: MutantResult)
  {
    && m.id == res.id && m.point == res.point && m.rule == res.rule && m.status == MapStatus(res.status)
    && m.timedOut == res.timedOut
    && |m.executed| == |res.executed|
    && (forall i, j :: 0 <= i < j < |m.executed| ==> Less(m.executed[i].0, m.executed[j].0))
    && (forall i :: 0 <= i < |m.executed| ==> m.executed[i].0 in res.executed && m.executed[i].1 == res.executed[m.executed[i].0])
    && forall p :: p in res.executed ==> (p, res.executed[p]) in m.executed
  }

  method Summarize(results: seq<Result>) returns (killed: nat, survived: nat, unsupported: nat, errored: nat)
    ensures killed == CountCode(results, KILLED) && survived == CountCode(results, SURVIVED)
    ensures unsupported == CountCode(results, UNSUPPORTED) && errored == CountCode(results, ERRORED)
  {
    killed, survived, unsupported, errored := 0, 0, 0, 0;
    for i := 0 to |results|
      invariant killed == CountCode(results[..i], KILLED) && survived == CountCode(results[..i], SURVIVED)
      invariant unsupported == CountCode(results[..i], UNSUPPORTED) && errored == CountCode(results[..i], ERRORED)
    {
      assert results[..i + 1][..i] == results[..i];
      if results[i].status == KILLED { killed := killed + 1; }
      else if results[i].status == SURVIVED { survived := survived + 1; }
      else if results[i].status == UNSUPPORTED { unsupported := unsupported + 1; }
      else if results[i].status == ERRORED { errored := errored + 1; }
    }
    assert results[..|results|] == results;
  }

  method ComposeReport(results: seq<Result>) returns (report: Report)
    ensures report.total == |results| == |report.mutants|
    ensures report.killed == CountCode(results, KILLED) && report.survived == CountCode(results, SURVIVED)
    ensures report.unsupported == CountCode(results, UNSUPPORTED) && report.errored == CountCode(results, ERRORED)
    ensures forall i :: 0 <= i < |results| ==> EntryFor(results[i], report.mutants[i])
  {
    var killed, survived, unsupported, errored := Summarize(results);
    var mutants: seq<MutantResult> := [];
    for i := 0 to |results|
      invariant |mutants| == i && forall j :: 0 <= j < i ==> EntryFor(results[j], mutants[j])
    {
      var m := Entry(results[i]);
      mutants := mutants + [m];
    }
    report := Report(|results|, killed, survived, unsupported, errored, mutants);
  }

  method Entry(res: Result) returns (m: MutantResult)
    ensures EntryFor(res, m)
  {
    var keys := SortedKeys(res.executed);
    KeyCount(keys, res.executed.Keys);
    var executed: seq<(string, string)> := [];
    for i := 0 to |keys|
      invariant |executed| == i && forall j :: 0 <= j < i ==> executed[j] == (keys[j], res.executed[keys[j]])
    {
      executed := executed + [(keys[i], res.executed[keys[i]])];
    }
    forall p | p in res.executed
      ensures (p, res.executed[p]) in executed
    {
      var j :| 0 <= j < |keys| && keys[j] == p;
      assert executed[j] == (p, res.executed[p]);
    }
    m := MutantResult(res.id, res.point, res.rule, MapStatus(res.status), executed, res.timedOut);
  }

  lemma {:induction false} KeyCount(keys: seq<string>, s: set<string>)
    requires StrictlySorted(keys) && forall k :: k in keys <==> k in s
    ensures |keys| == |s|
  {
    hide Less;
    if keys == [] {
      assert s == {};
    } else {
      var m := |keys| - 1;
      var last := keys[m];
      forall k ensures k in keys[..m] <==> k in s - {last} {
        if k in keys[..m] {
          var j :| 0 <= j < m && keys[j] == k;
          LastDiffers(keys, j);
        }
      }
      KeyCount(keys[..m], s - {last});
    }
  }

  lemma LastDiffers(keys: seq<string>, j: nat)
    requires StrictlySorted(keys) && j < |keys| - 1
    ensures keys[j] != keys[|keys| - 1]
  {
  }

  /** The report balances, and each count is the number of entries with that status, exactly
      when every status is one of the four named values. */
  lemma {:induction false} ReportBalances(results: seq<Result>, report: Report)
    requires report.total == |results| == |report.mutants|
    requires report.killed == CountCode(results, KILLED) && report.survived == CountCode(results, SURVIVED)
    requires report.unsupported == CountCode(results, UNSUPPORTED) && report.errored == CountCode(results, ERRORED)
    requires forall i :: 0 <= i < |results| ==> EntryFor(results[i], report.mutants[i])
    ensures report.killed == CountStatus(report.mutants, Killed) && report.survived == CountStatus(report.mutants, Survived)
    ensures report.unsupported == CountStatus(report.mutants, Unsupported)
    ensures report.errored == CountStatus(report.mutants, RunOne.Errored) <==> AllNamed(results)
    ensures report.total == report.killed + report.survived + report.unsupported + report.errored <==> AllNamed(results)
  {
    hide EntryFor;
    CountNamed(results, report.mutants, KILLED);
    CountNamed(results, report.mutants, SURVIVED);
    CountNamed(results, report.mutants, UNSUPPORTED);
    CountErrored(results, report.mutants);
    CountAll(report.mutants);
  }

  predicate AllNamed(results: seq<Result>)
  {
    forall i :: 0 <= i < |results| ==> KILLED <= results[i].status <= ERRORED
  }

  lemma {:induction false} CountNamed(results: seq<Result>, mutants: seq<MutantResult>, code: int)
    requires |results| == |mutants| && forall i :: 0 <= i < |results| ==> EntryFor(results[i], mutants[i])
    requires KILLED <= code <= UNSUPPORTED
    ensures CountCode(results, code) == CountStatus(mutants, MapStatus(code))
  {
    hide EntryFor;
    if results != [] {
      var m := |results| - 1;
      CountNamed(results[..m], mutants[..m], code);
      EntryStatus(results[m], mutants[m]);
    }
  }

  lemma {:induction false} CountErrored(results: seq<Result>, mutants: seq<MutantResult>)
    requires |results| == |mutants| && forall i :: 0 <= i < |results| ==> EntryFor(results[i], mutants[i])
    ensures CountCode(results, ERRORED) <= CountStatus(mutants, RunOne.Errored)
    ensures CountCode(results, ERRORED) == CountStatus(mutants, RunOne.Errored) <==> AllNamed(results)
  {
    hide EntryFor, AllNamed;
    AllNamedStep(results);
    if results != [] {
      var m := |results| - 1;
      CountErrored(results[..m], mutants[..m]);
      EntryStatus(results[m], mutants[m]);
    }
  }

  lemma EntryStatus(res: Result, m: MutantResult)
    requires EntryFor(res, m)
    ensures m.status == MapStatus(res.status)
  {
  }

  lemma AllNamedStep(results: seq<Result>)
    ensures results == [] ==> AllNamed(results)
    ensures results != [] ==>
      (AllNamed(results) <==> AllNamed(results[..|results| - 1]) && KILLED <= results[|results| - 1].status <= ERRORED)
  {
  }

  lemma {:induction false} CountAll(mutants: seq<MutantResult>)
    ensures CountStatus(mutants, Killed) + CountStatus(mutants, Survived) + CountStatus(mutants, Unsupported)
      + CountStatus(mutants, RunOne.Errored) == |mutants|
  {
    if mutants != [] {
      CountAll(mutants[..|mutants| - 1]);
    }
  }
}
