/** buildMutants of engine_run_helpers.go: what becomes of each rule at each point. */
module Pipeline {
  import opened Decimals
  import opened Positions
  import opened Resolve
  import opened Select
  import opened RunOne

  // How the stages of the loop body turn out for one rule at one point: prepareRuleInput,
  // Apply, ClonePath and Build. A stage that is not reached has no influence.
  datatype Applied = ApplyFailed | NotChanged | Changed
  datatype Stages = Stages(prepared: bool, applied: Applied, cloned: bool, built: bool)
  type Outcomes = (nat, nat) -> Stages               // point, rule

  // Go's MutantStatus is an int with four named values.
  const KILLED := 0
  const SURVIVED := 1
  const UNSUPPORTED := 2
  const ERRORED := 3

  datatype Result = Result(id: string, point: nat, rule: nat, status: int, executed: map<string, string>, timedOut: bool)
  datatype Mutant = Mutant(id: string, point: nat, rule: nat, selected: Selected)

  // backend(p) is what the test backend finds for point p.
  datatype Selector = Selector(project: Project, tests: seq<TestRef>, points: seq<Point>, backend: nat -> seq<TestRef>)

  // The (point, rule) pairs in processing order; rules[p] is the number of rules for point p.
  function Pairs(rules: seq<nat>): seq<(nat, nat)>
  {
    if rules == [] then []
    else Pairs(rules[..|rules| - 1]) + PointPairs(|rules| - 1, rules[|rules| - 1])
  }

  function PointPairs(p: nat, n: nat): (r: seq<(nat, nat)>)
    ensures |r| == n
  {
    seq(n, i => (p, i))
  }

  function MutantID(k: nat): string
  {
    "m-" + Decimal(k)
  }

  function ErrorResult(k: nat, p: nat, r: nat): Result
  {
    Result(MutantID(k), p, r, ERRORED, map[], false)
  }

  predicate IsUnchanged(s: Stages)
  {
    s.prepared && s.applied.NotChanged?
  }

  predicate IsRunnable(s: Stages)
  {
    s.prepared && s.applied.Changed? && s.cloned && s.built
  }

  predicate IsError(s: Stages)
  {
    !s.prepared || s.applied.ApplyFailed? || (s.applied.Changed? && !(s.cloned && s.built))
  }

  // The immediate errors among the first pairs, numbered from 1.
  function Immediate(pairs: seq<(nat, nat)>, outcomes: Outcomes): seq<Result>
  {
    if pairs == [] then []
    else
      var (p, r) := pairs[|pairs| - 1];
      Immediate(pairs[..|pairs| - 1], outcomes) + if IsError(outcomes(p, r)) then [ErrorResult(|pairs|, p, r)] else []
  }

  // The positions of the pairs that give a runnable mutant.
  function ToRun(pairs: seq<(nat, nat)>, outcomes: Outcomes): (r: seq<nat>)
    ensures forall k :: 0 <= k < |r| ==> r[k] < |pairs| && IsRunnable(outcomes(pairs[r[k]].0, pairs[r[k]].1))
    ensures forall k, l :: 0 <= k < l < |r| ==> r[k] < r[l]
  {
    if pairs == [] then []
    else
      var (p, r) := pairs[|pairs| - 1];
      ToRun(pairs[..|pairs| - 1], outcomes) + if IsRunnable(outcomes(p, r)) then [|pairs| - 1] else []
  }

  function UnchangedCount(pairs: seq<(nat, nat)>, outcomes: Outcomes): nat
  {
    if pairs == [] then 0
    else
      var (p, r) := pairs[|pairs| - 1];
      UnchangedCount(pairs[..|pairs| - 1], outcomes) + if IsUnchanged(outcomes(p, r)) then 1 else 0
  }

  // The mutant of pair x carries the pair's number and the selection for its point.
  ghost predicate IsMutant(selector: Selector, importedBy: map<string, seq<string>>, pairs: seq<(nat, nat)>, x: nat, m: Mutant)
  {
    && x < |pairs| && m.id == MutantID(x + 1) && (m.point, m.rule) == pairs[x] && m.point < |selector.points|
    && IsSelect(importedBy, selector.tests, selector.backend(m.point), selector.points[m.point], m.selected)
  }

  ghost predicate AreMutants(selector: Selector, importedBy: map<string, seq<string>>, pairs: seq<(nat, nat)>, positions: seq<nat>, mutants: seq<Mutant>)
  {
    |positions| == |mutants| && forall k :: 0 <= k < |mutants| ==> IsMutant(selector, importedBy, pairs, positions[k], mutants[k])
  }

  // One turn of the rule loop.
  method TryRule(k: nat, p: nat, r: nat, stages: Stages, selector: Selector, ghost importedBy: map<string, seq<string>>, base0: seq<Result>, run0: seq<Mutant>)
    returns (baseResults: seq<Result>, runMutants: seq<Mutant>)
    requires IsImportedBy(selector.project, importedBy) && p < |selector.points|
    ensures baseResults == base0 + if IsError(stages) then [ErrorResult(k, p, r)] else []
    ensures !IsRunnable(stages) ==> runMutants == run0
    ensures IsRunnable(stages) ==> exists selected ::
      && runMutants == run0 + [Mutant(MutantID(k), p, r, selected)]
      && IsSelect(importedBy, selector.tests, selector.backend(p), selector.points[p], selected)
  {
    baseResults, runMutants := base0, run0;
    var mutantID := MutantID(k);
    if !stages.prepared {
      baseResults := baseResults + [Result(mutantID, p, r, ERRORED, map[], false)];
      return;
    }
    if stages.applied.ApplyFailed? {
      baseResults := baseResults + [Result(mutantID, p, r, ERRORED, map[], false)];
      return;
    }
    if !stages.applied.Changed? {
      return;
    }
    if !stages.cloned {
      baseResults := baseResults + [Result(mutantID, p, r, ERRORED, map[], false)];
      return;
    }
    if !stages.built {
      baseResults := baseResults + [Result(mutantID, p, r, ERRORED, map[], false)];
      return;
    }
    hide IsSelect;
    var selected := Select.Select(selector.project, selector.tests, selector.points[p], selector.backend(p), importedBy);
    runMutants := runMutants + [Mutant(mutantID, p, r, selected)];
  }

  // The two lists after the first pairs.
  ghost predicate Built(selector: Selector, importedBy: map<string, seq<string>>, pairs: seq<(nat, nat)>, outcomes: Outcomes,
                        baseResults: seq<Result>, runMutants: seq<Mutant>)
  {
    baseResults == Immediate(pairs, outcomes) && AreMutants(selector, importedBy, pairs, ToRun(pairs, outcomes), runMutants)
  }

  lemma BuiltStep(selector: Selector, importedBy: map<string, seq<string>>, pairs: seq<(nat, nat)>, outcomes: Outcomes,
                  baseResults: seq<Result>, runMutants: seq<Mutant>, p: nat, r: nat, baseResults': seq<Result>, runMutants': seq<Mutant>)
    requires Built(selector, importedBy, pairs, outcomes, baseResults, runMutants) && p < |selector.points|
    requires baseResults' == baseResults + if IsError(outcomes(p, r)) then [ErrorResult(|pairs| + 1, p, r)] else []
    requires !IsRunnable(outcomes(p, r)) ==> runMutants' == runMutants
    requires IsRunnable(outcomes(p, r)) ==> exists selected ::
      && runMutants' == runMutants + [Mutant(MutantID(|pairs| + 1), p, r, selected)]
      && IsSelect(importedBy, selector.tests, selector.backend(p), selector.points[p], selected)
    ensures Built(selector, importedBy, pairs + [(p, r)], outcomes, baseResults', runMutants')
  {
    hide IsSelect, MutantID, IsError, IsRunnable;
    var pairs' := pairs + [(p, r)];
    assert pairs'[..|pairs|] == pairs && pairs'[|pairs|] == (p, r);
    forall k | 0 <= k < |runMutants|
      ensures IsMutant(selector, importedBy, pairs', ToRun(pairs, outcomes)[k], runMutants[k])
    {
      assert IsMutant(selector, importedBy, pairs, ToRun(pairs, outcomes)[k], runMutants[k]);
    }
  }

  lemma {:induction false} NothingBuilt(selector: Selector, importedBy: map<string, seq<string>>, outcomes: Outcomes)
    ensures Built(selector, importedBy, [], outcomes, [], [])
  {
  }

  /** The loops over points and rules. A point without rules is skipped. */
  method BuildMutants(rules: seq<nat>, outcomes: Outcomes, selector: Selector, ghost importedBy: map<string, seq<string>>)
    returns (baseResults: seq<Result>, runMutants: seq<Mutant>)
    requires IsImportedBy(selector.project, importedBy) && |rules| == |selector.points|
    ensures baseResults == Immediate(Pairs(rules), outcomes)
    ensures AreMutants(selector, importedBy, Pairs(rules), ToRun(Pairs(rules), outcomes), runMutants)
  {
    hide Immediate, ToRun, AreMutants;
    baseResults, runMutants := [], [];
    NothingBuilt(selector, importedBy, outcomes);
    var mutantSeq := 1;
    for p := 0 to |rules|
      invariant mutantSeq == |Pairs(rules[..p])| + 1
      invariant Built(selector, importedBy, Pairs(rules[..p]), outcomes, baseResults, runMutants)
    {
      hide Built;
      assert rules[..p + 1][..p] == rules[..p];
      if rules[p] == 0 {
        assert Pairs(rules[..p]) + PointPairs(p, 0) == Pairs(rules[..p]);
        continue;
      }
      baseResults, runMutants, mutantSeq := TryRules(p, rules[p], outcomes, selector, importedBy, Pairs(rules[..p]), baseResults, runMutants, mutantSeq);
    }
    assert rules[..|rules|] == rules;
  }

  // The rule loop for one point; "before" lists the pairs of the earlier points.
  method TryRules(p: nat, n: nat, outcomes: Outcomes, selector: Selector, ghost importedBy: map<string, seq<string>>,
                  ghost before: seq<(nat, nat)>, base0: seq<Result>, run0: seq<Mutant>, seq0: nat)
    returns (baseResults: seq<Result>, runMutants: seq<Mutant>, mutantSeq: nat)
    requires IsImportedBy(selector.project, importedBy) && p < |selector.points|
    requires seq0 == |before| + 1 && Built(selector, importedBy, before, outcomes, base0, run0)
    ensures mutantSeq == |before| + n + 1
    ensures Built(selector, importedBy, before + PointPairs(p, n), outcomes, baseResults, runMutants)
  {
    hide Built, MutantID, IsError, IsRunnable, IsSelect, IsImportedBy;
    baseResults, runMutants, mutantSeq := base0, run0, seq0;
    assert before + PointPairs(p, n)[..0] == before;
    for r := 0 to n
      invariant mutantSeq == |before| + r + 1
      invariant Built(selector, importedBy, before + PointPairs(p, n)[..r], outcomes, baseResults, runMutants)
    {
      ghost var now := before + PointPairs(p, n)[..r];
      assert before + PointPairs(p, n)[..r + 1] == now + [(p, r)];
      ghost var base, run := baseResults, runMutants;
      baseResults, runMutants := TryRule(mutantSeq, p, r, outcomes(p, r), selector, importedBy, baseResults, runMutants);
      BuiltStep(selector, importedBy, now, outcomes, base, run, p, r, baseResults, runMutants);
      mutantSeq := mutantSeq + 1;
    }
    assert PointPairs(p, n)[..n] == PointPairs(p, n);
  }

  /** Pair x is in the list of immediate errors, under its own number, or in the list of
      runnable mutants, or in neither: exactly by what the first stage that ends its turn says. */
  lemma {:induction false} PairFate(pairs: seq<(nat, nat)>, outcomes: Outcomes, x: nat)
    requires x < |pairs|
    ensures var (p, r) := pairs[x];
      && (ErrorResult(x + 1, p, r) in Immediate(pairs, outcomes) <==> IsError(outcomes(p, r)))
      && (x in ToRun(pairs, outcomes) <==> IsRunnable(outcomes(p, r)))
      && (ErrorResult(x + 1, p, r) !in Immediate(pairs, outcomes) && x !in ToRun(pairs, outcomes) <==> IsUnchanged(outcomes(p, r)))
      && !(ErrorResult(x + 1, p, r) in Immediate(pairs, outcomes) && x in ToRun(pairs, outcomes))
  {
    hide ToRun, Immediate;
    var (p, r) := pairs[x];
    if IsError(outcomes(p, r)) {
      ErrorListed(pairs, outcomes, x);
    }
    if ErrorResult(x + 1, p, r) in Immediate(pairs, outcomes) {
      var k :| 0 <= k < |Immediate(pairs, outcomes)| && Immediate(pairs, outcomes)[k] == ErrorResult(x + 1, p, r);
      var y := ImmediateNumber(pairs, outcomes, k);
    }
    if IsRunnable(outcomes(p, r)) {
      RunnableListed(pairs, outcomes, x);
    }
  }

  lemma {:induction false} ErrorListed(pairs: seq<(nat, nat)>, outcomes: Outcomes, x: nat)
    requires x < |pairs| && IsError(outcomes(pairs[x].0, pairs[x].1))
    ensures ErrorResult(x + 1, pairs[x].0, pairs[x].1) in Immediate(pairs, outcomes)
  {
    if x < |pairs| - 1 {
      ErrorListed(pairs[..|pairs| - 1], outcomes, x);
    }
  }

  lemma {:induction false} RunnableListed(pairs: seq<(nat, nat)>, outcomes: Outcomes, x: nat)
    requires x < |pairs| && IsRunnable(outcomes(pairs[x].0, pairs[x].1))
    ensures x in ToRun(pairs, outcomes)
  {
    if x < |pairs| - 1 {
      RunnableListed(pairs[..|pairs| - 1], outcomes, x);
    }
  }

  // The ID is "m-" and the decimal number n.
  ghost predicate IsID(id: string, n: nat)
  {
    |id| >= 2 && id[..2] == "m-" && IsNumeral(id[2..], n)
  }

  lemma MutantIDIsID(n: nat)
    ensures IsID(MutantID(n), n)
  {
    DecimalIsNumeral(n);
    assert MutantID(n)[2..] == Decimal(n);
  }

  // The immediate error of pair x.
  ghost predicate IsErrorOf(pairs: seq<(nat, nat)>, x: nat, e: Result)
  {
    && x < |pairs| && IsID(e.id, x + 1) && e.point == pairs[x].0 && e.rule == pairs[x].1
    && e.status == ERRORED && e.executed == map[] && !e.timedOut
  }

  /** The immediate errors are those of exactly the pairs whose turn ends in one, in pair order,
      each with its pair's number, point and rule. */
  lemma {:induction false} ImmediateListed(pairs: seq<(nat, nat)>, outcomes: Outcomes) returns (at: seq<nat>)
    ensures Increasing(at) && |at| == |Immediate(pairs, outcomes)|
    ensures forall k :: 0 <= k < |at| ==> IsErrorOf(pairs, at[k], Immediate(pairs, outcomes)[k])
    ensures forall x: nat :: x in at <==> x < |pairs| && IsError(outcomes(pairs[x].0, pairs[x].1))
  {
    at := [];
    if pairs != [] {
      hide IsError, IsErrorOf, Immediate;
      var m := |pairs| - 1;
      at := ImmediateListed(pairs[..m], outcomes);
      ImmediateLast(pairs, outcomes);
      var errors := Immediate(pairs[..m], outcomes);
      forall k | 0 <= k < |at|
        ensures IsErrorOf(pairs, at[k], errors[k]) && at[k] < m
      {
        ErrorOfFront(pairs, at[k], errors[k]);
      }
      assert forall x: nat :: x < m ==> pairs[..m][x] == pairs[x];
      if IsError(outcomes(pairs[m].0, pairs[m].1)) {
        at := at + [m];
      }
    }
  }

  lemma {:induction false} ImmediateLast(pairs: seq<(nat, nat)>, outcomes: Outcomes)
    requires pairs != []
    ensures var m := |pairs| - 1; var e := ErrorResult(m + 1, pairs[m].0, pairs[m].1);
      && Immediate(pairs, outcomes) == Immediate(pairs[..m], outcomes) + (if IsError(outcomes(pairs[m].0, pairs[m].1)) then [e] else [])
      && IsErrorOf(pairs, m, e)
  {
    hide IsError, IsID, MutantID;
    MutantIDIsID(|pairs|);
  }

  lemma ErrorOfFront(pairs: seq<(nat, nat)>, x: nat, e: Result)
    requires pairs != [] && IsErrorOf(pairs[..|pairs| - 1], x, e)
    ensures x < |pairs| - 1 && IsErrorOf(pairs, x, e)
  {
    hide IsID;
  }

  /** The runnable mutants are those of exactly the pairs whose turn gives one, in pair order. */
  lemma {:induction false} ToRunListed(pairs: seq<(nat, nat)>, outcomes: Outcomes)
    ensures Increasing(ToRun(pairs, outcomes))
    ensures forall x: nat :: x in ToRun(pairs, outcomes) <==> x < |pairs| && IsRunnable(outcomes(pairs[x].0, pairs[x].1))
  {
    hide IsRunnable, ToRun;
    forall x: nat | x < |pairs| && IsRunnable(outcomes(pairs[x].0, pairs[x].1))
      ensures x in ToRun(pairs, outcomes)
    {
      RunnableListed(pairs, outcomes, x);
    }
  }

  // Each point with each of its rules, point by point and rule by rule.
  ghost predicate InTurn(rules: seq<nat>, pairs: seq<(nat, nat)>)
  {
    && (forall k, l :: 0 <= k < l < |pairs| ==> pairs[k].0 < pairs[l].0 || (pairs[k].0 == pairs[l].0 && pairs[k].1 < pairs[l].1))
    && forall p: nat, r: nat :: (p, r) in pairs <==> p < |rules| && r < rules[p]
  }

  lemma {:induction false} PairsInTurn(rules: seq<nat>)
    ensures InTurn(rules, Pairs(rules))
  {
    if rules != [] {
      var m := |rules| - 1;
      PairsInTurn(rules[..m]);
      var front, last := Pairs(rules[..m]), PointPairs(m, rules[m]);
      forall p: nat, r: nat
        ensures (p, r) in front + last <==> p < |rules| && r < rules[p]
      {
        if p == m && r < rules[m] { assert last[r] == (p, r); }
      }
      assert forall k :: 0 <= k < |front| ==> front[k] in front;
      forall k | 0 <= k < |front| ensures front[k].0 < m {
        assert (front[k].0, front[k].1) in front;
      }
    }
  }

  /** Conservation: every pair is counted exactly once. */
  lemma {:induction false} EveryPairOnce(pairs: seq<(nat, nat)>, outcomes: Outcomes)
    ensures |Immediate(pairs, outcomes)| + |ToRun(pairs, outcomes)| + UnchangedCount(pairs, outcomes) == |pairs|
  {
    if pairs != [] {
      EveryPairOnce(pairs[..|pairs| - 1], outcomes);
      var (p, r) := pairs[|pairs| - 1];
      assert IsError(outcomes(p, r)) || IsUnchanged(outcomes(p, r)) || IsRunnable(outcomes(p, r));
    }
  }

  /** An immediate result is the error of pair x, and k errors come before it. */
  lemma {:induction false} ImmediateNumber(pairs: seq<(nat, nat)>, outcomes: Outcomes, k: nat) returns (x: nat)
    requires k < |Immediate(pairs, outcomes)|
    ensures x < |pairs| && Immediate(pairs, outcomes)[k] == ErrorResult(x + 1, pairs[x].0, pairs[x].1)
    ensures IsError(outcomes(pairs[x].0, pairs[x].1)) && |Immediate(pairs[..x], outcomes)| == k
  {
    var front := pairs[..|pairs| - 1];
    if k < |Immediate(front, outcomes)| {
      x := ImmediateNumber(front, outcomes, k);
      assert front[..x] == pairs[..x];
    } else {
      x := |pairs| - 1;
    }
  }

  lemma {:induction false} ImmediateGrows(pairs: seq<(nat, nat)>, outcomes: Outcomes, x: nat, y: nat)
    ensures x <= y <= |pairs| ==> |Immediate(pairs[..x], outcomes)| <= |Immediate(pairs[..y], outcomes)|
    decreases y
  {
    if x < y <= |pairs| {
      ImmediateGrows(pairs, outcomes, x, y - 1);
      assert pairs[..y][..y - 1] == pairs[..y - 1];
    }
  }

  /** The numbers increase along the list of immediate errors. (Those of the runnable mutants
      do by the contract of ToRun.) */
  lemma ImmediateIncreases(pairs: seq<(nat, nat)>, outcomes: Outcomes, k: nat, l: nat) returns (x: nat, y: nat)
    requires k < l < |Immediate(pairs, outcomes)|
    ensures x < y < |pairs|
    ensures Immediate(pairs, outcomes)[k] == ErrorResult(x + 1, pairs[x].0, pairs[x].1)
    ensures Immediate(pairs, outcomes)[l] == ErrorResult(y + 1, pairs[y].0, pairs[y].1)
  {
    x := ImmediateNumber(pairs, outcomes, k);
    y := ImmediateNumber(pairs, outcomes, l);
    ImmediateGrows(pairs, outcomes, y, x);
  }

  lemma MutantIDInjective(k: nat, l: nat)
    ensures MutantID(k) == MutantID(l) ==> k == l
  {
    assert MutantID(k)[2..] == Decimal(k) && MutantID(l)[2..] == Decimal(l);
    DecimalInjective(k, l);
  }

  /** Mutant IDs are pairwise distinct, within each list and between the two. */
  lemma {:induction false} IDsDistinct(selector: Selector, importedBy: map<string, seq<string>>, pairs: seq<(nat, nat)>, outcomes: Outcomes, mutants: seq<Mutant>, k: nat, l: nat)
    requires AreMutants(selector, importedBy, pairs, ToRun(pairs, outcomes), mutants)
    ensures k < l < |Immediate(pairs, outcomes)| ==> Immediate(pairs, outcomes)[k].id != Immediate(pairs, outcomes)[l].id
    ensures k < l < |mutants| ==> mutants[k].id != mutants[l].id
    ensures k < |Immediate(pairs, outcomes)| && l < |mutants| ==> Immediate(pairs, outcomes)[k].id != mutants[l].id
  {
    hide Immediate, ToRun, MutantID, IsSelect;
    if k < l < |Immediate(pairs, outcomes)| {
      var x, y := ImmediateIncreases(pairs, outcomes, k, l);
      MutantIDInjective(x + 1, y + 1);
    }
    if l < |mutants| {
      var y := ToRun(pairs, outcomes)[l];
      assert IsMutant(selector, importedBy, pairs, y, mutants[l]);
      if k < l {
        assert IsMutant(selector, importedBy, pairs, ToRun(pairs, outcomes)[k], mutants[k]);
        MutantIDInjective(ToRun(pairs, outcomes)[k] + 1, y + 1);
      }
      if k < |Immediate(pairs, outcomes)| {
        var x := ImmediateNumber(pairs, outcomes, k);
        MutantIDInjective(x + 1, y + 1);
      }
    }
  }
}
