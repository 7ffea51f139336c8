/** Selector.Select followed by execution.runOne. */
module SelectThenRun {
  import opened Order
  import opened RunPattern
  import opened RunOne
  import opened Select
  import opened Resolve

  /** A mutant that carries a selection is Unsupported exactly when no test was selected, and
      Survived only when a command ran for every selected package and all of them passed. */
  lemma VerdictOnSelection(candidates: seq<TestRef>, allowed: string -> bool, selected: Selected, command: Oracle, v: Verdict)
    requires IsSelection(candidates, allowed, selected)
    requires IsVerdict(selected, command, v)
    ensures v.status == Unsupported <==> !exists t :: t in candidates && allowed(t.importPath)
    ensures v.status == Survived ==> v.executed.Keys == selected.Keys != {}
    ensures v.status == Survived ==> forall p :: p in v.executed ==> command(p, Pattern(selected[p])) == Passed
  {
    hide StrictlySorted, Pattern, Less, HasCandidate, Reached;
    SelectionEmpty(candidates, allowed, selected);
    if v.status == Survived {
      forall p | p in selected ensures p in v.executed {
        AllPassReached(selected, command, p);
      }
      assert v.executed.Keys == selected.Keys;
      assert forall p :: p in selected ==> HasTests(selected, p);
    }
  }

  lemma AllPassReached(selected: Selected, command: Oracle, p: string)
    requires p in selected && selected[p] != [] && forall q :: q in selected ==> !Fails(selected, command, q)
    ensures Reached(selected, command, p)
  {
  }

  /** Select returns nothing exactly when no candidate is in an allowed package. */
  lemma SelectionEmpty(candidates: seq<TestRef>, allowed: string -> bool, selected: map<string, seq<string>>)
    requires IsSelection(candidates, allowed, selected)
    ensures selected == map[] <==> !exists t :: t in candidates && allowed(t.importPath)
  {
    if t :| t in candidates && allowed(t.importPath) {
      assert HasCandidate(candidates, t.importPath, t.name);
      assert t.importPath in selected;
    } else if selected != map[] {
      var p :| p in selected;
      assert selected[p][0] in selected[p];
      assert HasCandidate(candidates, p, selected[p][0]);
    }
  }

  method SelectAndRun(project: Project, tests: seq<TestRef>, point: Point, fromBackend: seq<TestRef>, command: Oracle,
                      ghost importedBy: map<string, seq<string>>)
    returns (v: Verdict)
    requires IsImportedBy(project, importedBy)
    ensures v.status == Unsupported <==>
      !exists t :: t in Candidates(tests, fromBackend) && Allowed(importedBy, point.importPath, t.importPath)
    ensures v.status == Survived ==> v.executed != map[]
    ensures v.status == Survived ==> forall p :: p in v.executed ==> command(p, v.executed[p]) == Passed
    ensures v.status == Killed ==> exists p :: p in v.executed && command(p, v.executed[p]) != Passed
  {
    hide Pattern, Less, RightStatus, Reached;
    var selected := Select.Select(project, tests, point, fromBackend, importedBy);
    v := RunOne.RunOne(selected, command);
    VerdictOnSelection(Candidates(tests, fromBackend), path => Allowed(importedBy, point.importPath, path), selected, command, v);
    if v.status == Killed {
      FailureRan(selected, command, v);
    }
  }

  lemma FailureRan(selected: Selected, command: Oracle, v: Verdict)
    requires IsVerdict(selected, command, v) && v.status == Killed
    ensures exists p :: p in v.executed && command(p, v.executed[p]) != Passed
  {
    hide Pattern, Less;
    assert v.failedPkg[0] in v.executed;
  }
}
