/** execution.runOne: the verdict on one mutant, over an oracle for each "go test" command. */
module RunOne {
  import opened Order
  import opened RunPattern

  // DeadlineExceeded: the command failed and its context had run out of time.
  datatype Outcome = Passed | Failed | DeadlineExceeded
  datatype Status = Killed | Survived | Unsupported | Errored
  datatype Verdict = Verdict(status: Status, executed: map<string, string>, failedPkg: seq<string>, timedOut: bool)

  type Selected = map<string, seq<string>>          // import path -> test names
  type Oracle = (string, string) -> Outcome         // package, -run pattern

  // The loop runs a command for package p.
  predicate HasTests(selected: Selected, p: string)
  {
    p in selected && selected[p] != []
  }

  predicate Fails(selected: Selected, command: Oracle, p: string)
  {
    HasTests(selected, p) && command(p, Pattern(selected[p])) != Passed
  }

  // p comes no later than the first failing package.
  ghost predicate Reached(selected: Selected, command: Oracle, p: string)
  {
    HasTests(selected, p) && forall q :: q in selected && Less(q, p) ==> !Fails(selected, command, q)
  }

  ghost predicate FirstFailure(selected: Selected, command: Oracle, p: string)
  {
    Fails(selected, command, p) && Reached(selected, command, p)
  }

  ghost predicate RightStatus(selected: Selected, command: Oracle, status: Status)
  {
    && (status == Unsupported <==> selected == map[])
    && (status == Killed <==> exists p :: p in selected && Fails(selected, command, p))
    && (status == Survived <==> selected != map[] && forall p :: p in selected ==> !Fails(selected, command, p))
  }

  ghost predicate RightRuns(selected: Selected, command: Oracle, executed: map<string, string>)
  {
    && (forall p :: p in executed <==> p in selected && Reached(selected, command, p))
    && forall p :: p in executed ==> p in selected && executed[p] == Pattern(selected[p])
  }

  ghost predicate RightFailure(selected: Selected, command: Oracle, p: string, timedOut: bool)
  {
    FirstFailure(selected, command, p) && (timedOut <==> command(p, Pattern(selected[p])) == DeadlineExceeded)
  }

  /** The whole verdict, for every selection and every oracle. */
  ghost predicate IsVerdict(selected: Selected, command: Oracle, v: Verdict)
  {
    && RightStatus(selected, command, v.status) && RightRuns(selected, command, v.executed)
    && if v.status == Killed then |v.failedPkg| == 1 && RightFailure(selected, command, v.failedPkg[0], v.timedOut)
       else v.failedPkg == [] && !v.timedOut
  }

  /** The conditions leave no choice. */
  lemma VerdictUnique(selected: Selected, command: Oracle, v: Verdict, w: Verdict)
    requires IsVerdict(selected, command, v) && IsVerdict(selected, command, w)
    ensures v == w
  {
    hide Pattern, Less;
    if v.status == Killed {
      assert v.failedPkg == [v.failedPkg[0]] && w.failedPkg == [w.failedPkg[0]];
      OneFirst(selected, command, v.failedPkg[0], w.failedPkg[0]);
    }
    assert v.executed.Keys == w.executed.Keys;
    assert v.executed == w.executed;
  }

  lemma OneFirst(selected: Selected, command: Oracle, p: string, q: string)
    requires FirstFailure(selected, command, p) && FirstFailure(selected, command, q)
    ensures p == q
  {
    LeqTotal(p, q);
  }

  /** A selection of empty lists only is Survived although nothing runs, and it is the only
      selection for which that happens. */
  lemma NothingRan(selected: Selected, command: Oracle, v: Verdict)
    requires IsVerdict(selected, command, v)
    ensures selected != map[] ==> (v.status == Survived && v.executed == map[] <==> forall p :: p in selected ==> selected[p] == [])
  {
    hide Pattern;
    if selected != map[] && v.status == Survived && v.executed == map[] {
      forall p | p in selected
        ensures selected[p] == []
      {
        assert p !in v.executed && !Fails(selected, command, p);
        assert Reached(selected, command, p) <==> HasTests(selected, p);
      }
    }
    if selected != map[] && forall p :: p in selected ==> selected[p] == [] {
      assert forall p :: p in selected ==> !Fails(selected, command, p) && !Reached(selected, command, p);
      assert forall p :: p !in v.executed;
    }
  }

  // The first i packages have passed or have no tests.
  ghost predicate SoFar(selected: Selected, command: Oracle, pkgs: seq<string>, i: nat, executed: map<string, string>)
  {
    && StrictlySorted(pkgs) && (forall k :: k in pkgs <==> k in selected) && i <= |pkgs|
    && (forall k :: 0 <= k < i ==> !Fails(selected, command, pkgs[k]))
    && (forall p :: p in executed <==> p in pkgs[..i] && HasTests(selected, p))
    && forall p :: p in executed ==> p in selected && executed[p] == Pattern(selected[p])
  }

  lemma PackageDone(selected: Selected, command: Oracle, pkgs: seq<string>, i: nat, executed: map<string, string>)
    requires SoFar(selected, command, pkgs, i, executed) && i < |pkgs| && !Fails(selected, command, pkgs[i])
    ensures pkgs[i] in selected
    ensures SoFar(selected, command, pkgs, i + 1,
                  if selected[pkgs[i]] == [] then executed else executed[pkgs[i] := Pattern(selected[pkgs[i]])])
  {
    hide StrictlySorted, Pattern;
    assert pkgs[..i + 1] == pkgs[..i] + [pkgs[i]];
  }

  lemma PackageFails(selected: Selected, command: Oracle, pkgs: seq<string>, i: nat, executed: map<string, string>)
    requires SoFar(selected, command, pkgs, i, executed) && i < |pkgs| && Fails(selected, command, pkgs[i])
    ensures RightStatus(selected, command, Killed)
    ensures RightRuns(selected, command, executed[pkgs[i] := Pattern(selected[pkgs[i]])])
    ensures FirstFailure(selected, command, pkgs[i])
  {
    hide StrictlySorted, Pattern, Reached;
    UpToHere(selected, command, pkgs, i);
    assert pkgs[..i + 1] == pkgs[..i] + [pkgs[i]];
  }

  lemma AllPassed(selected: Selected, command: Oracle, pkgs: seq<string>, executed: map<string, string>)
    requires SoFar(selected, command, pkgs, |pkgs|, executed) && selected != map[]
    ensures RightStatus(selected, command, Survived) && RightRuns(selected, command, executed)
  {
    hide StrictlySorted, Pattern, Fails;
    assert pkgs[..|pkgs|] == pkgs;
    forall p | p in selected ensures !Fails(selected, command, p) {
      var k :| 0 <= k < |pkgs| && pkgs[k] == p;
    }
  }

  method RunOne(selected: Selected, command: Oracle) returns (v: Verdict)
    ensures IsVerdict(selected, command, v)
  {
    hide SoFar, Pattern, StrictlySorted, RightStatus, RightRuns, FirstFailure;
    v := Verdict(Survived, map[], [], false);
    if |selected| == 0 {
      EmptySelection(selected, command);
      return v.(status := Unsupported);
    }
    var pkgs := SortedKeys(selected);
    NothingYet(selected, command, pkgs);
    var i := 0;
    while i < |pkgs|
      invariant i <= |pkgs| && SoFar(selected, command, pkgs, i, v.executed)
      invariant v.status == Survived && v.failedPkg == [] && !v.timedOut
    {
      var pkg := pkgs[i];
      var tests := selected[pkg];
      if !Fails(selected, command, pkg) {
        PackageDone(selected, command, pkgs, i, v.executed);
      } else {
        PackageFails(selected, command, pkgs, i, v.executed);
      }
      i := i + 1;
      if |tests| == 0 {
        continue;
      }
      var runPattern := BuildRunPattern(tests);
      v := v.(executed := v.executed[pkg := runPattern]);
      var err := command(pkg, runPattern);
      if err == Passed {
        continue;
      }
      v := v.(status := Killed, failedPkg := [pkg], timedOut := err == DeadlineExceeded);
      return;
    }
    AllPassed(selected, command, pkgs, v.executed);
  }

  lemma EmptySelection(selected: Selected, command: Oracle)
    requires selected == map[]
    ensures RightStatus(selected, command, Unsupported) && RightRuns(selected, command, map[])
  {
  }

  lemma NothingYet(selected: Selected, command: Oracle, pkgs: seq<string>)
    requires StrictlySorted(pkgs) && forall k :: k in pkgs <==> k in selected
    ensures SoFar(selected, command, pkgs, 0, map[])
  {
  }

  lemma UpToHere(selected: Selected, command: Oracle, pkgs: seq<string>, i: nat)
    requires StrictlySorted(pkgs) && (forall k :: k in pkgs <==> k in selected) && i < |pkgs|
    requires forall k :: 0 <= k < i ==> !Fails(selected, command, pkgs[k])
    ensures HasTests(selected, pkgs[i]) ==> Reached(selected, command, pkgs[i])
    ensures Fails(selected, command, pkgs[i]) ==>
      forall p :: p in selected && Reached(selected, command, p) <==> p in pkgs[..i + 1] && HasTests(selected, p)
  {
    hide Less, Fails;
    forall k | 0 <= k <= i && HasTests(selected, pkgs[k])
      ensures Reached(selected, command, pkgs[k])
    {
      ReachedAt(selected, command, pkgs, i, k);
    }
    if Fails(selected, command, pkgs[i]) {
      forall p | p in selected && p !in pkgs[..i + 1]
        ensures !Reached(selected, command, p)
      {
        var k :| 0 <= k < |pkgs| && pkgs[k] == p;
        assert pkgs[..i + 1][i] == pkgs[i];
        assert forall l :: 0 <= l <= i ==> pkgs[..i + 1][l] == pkgs[l];
        assert Less(pkgs[i], p);
        assert pkgs[i] in selected;
      }
    }
  }

  lemma ReachedAt(selected: Selected, command: Oracle, pkgs: seq<string>, i: nat, k: nat)
    requires StrictlySorted(pkgs) && (forall q :: q in pkgs <==> q in selected) && k <= i < |pkgs|
    requires forall j :: 0 <= j < i ==> !Fails(selected, command, pkgs[j])
    requires HasTests(selected, pkgs[k])
    ensures Reached(selected, command, pkgs[k])
  {
    hide Fails;
    forall q | q in selected && Less(q, pkgs[k])
      ensures !Fails(selected, command, q)
    {
      var j :| 0 <= j < |pkgs| && pkgs[j] == q;
      if k < j { LeqTotal(q, pkgs[k]); }
      assert j < k;
    }
  }
}
