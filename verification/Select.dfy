/** internal/selection/select.go: the reverse callers of the AST backend, the reverse
    dependers of a package, and Selector.Select, which intersects the two. */
module Select {
  import opened Order
  import opened Graph
  import opened Resolve
  import opened Positions
  import opened Wrappers

  datatype TestRef = TestRef(pkgID: string, importPath: string, name: string)
  datatype Point = Point(pkgID: string, importPath: string, enclosing: Option<string>)

  // ---- the call graph that the code builds

  // The files of the project in loading order, each with its package ID.
  function Files(project: Project): seq<(string, File)>
  {
    if project == [] then []
    else Files(project[..|project| - 1]) + PackageFiles(project[|project| - 1])
  }

  function PackageFiles(pkg: Package): (r: seq<(string, File)>)
    ensures |r| == |pkg.files|
  {
    seq(|pkg.files|, i requires 0 <= i < |pkg.files| => (pkg.id, pkg.files[i]))
  }

  // A later declaration under the same key replaces an earlier one.
  function DeclBodies(id: string, decls: seq<FuncDecl>): map<Key, seq<Call>>
  {
    if decls == [] then map[]
    else
      var d := decls[|decls| - 1];
      var before := DeclBodies(id, decls[..|decls| - 1]);
      if d.body.None? then before else before[Key(id, d.name) := d.body.value]
  }

  function Bodies(files: seq<(string, File)>): map<Key, seq<Call>>
  {
    if files == [] then map[]
    else
      var (id, file) := files[|files| - 1];
      Bodies(files[..|files| - 1]) + DeclBodies(id, file.decls)
  }

  // The aliases of all files of one package ID, later files overriding earlier ones.
  function Aliases(files: seq<(string, File)>, id: string): map<string, string>
  {
    if files == [] then map[]
    else
      var (owner, file) := files[|files| - 1];
      var before := Aliases(files[..|files| - 1], id);
      if owner == id then before + file.aliases else before
  }

  function Callees(calls: seq<Call>, current: string, aliases: map<string, string>, byImport: map<string, seq<string>>): seq<Key>
  {
    if calls == [] then []
    else
      var r := ResolveFunctionCall(current, calls[|calls| - 1], false, aliases, byImport, None);
      Callees(calls[..|calls| - 1], current, aliases, byImport) + if r.Some? then [r.value] else []
  }

  // caller -> the keys its calls resolve to
  function CallGraph(project: Project, byImport: map<string, seq<string>>): map<Key, seq<Key>>
  {
    var files := Files(project);
    var bodies := Bodies(files);
    map caller | caller in bodies :: Callees(bodies[caller], caller.pkgID, Aliases(files, caller.pkgID), byImport)
  }

  /** buildReverseCallers: the transposed call graph. */
  method BuildReverseCallers(project: Project, ghost byImport: map<string, seq<string>>) returns (reverse: map<Key, seq<Key>>)
    requires IsByImport(project, byImport)
    ensures Transposed(CallGraph(project, byImport), reverse)
  {
    var funcBodies, importAliases := CollectBodies(project);
    var resolver := BuildByImport(project);
    ByImportUnique(project, resolver, byImport);
    ghost var graph := CallGraph(project, byImport);
    reverse := map[];
    var left := funcBodies.Keys;
    while left != {}
      invariant left <= funcBodies.Keys
      invariant forall a, b :: Edge(reverse, b, a) <==> a !in left && Edge(graph, a, b)
      decreases left
    {
      var caller :| caller in left;
      var aliases := if caller.pkgID in importAliases then importAliases[caller.pkgID] else map[];
      reverse := AddCallers(caller, funcBodies[caller], aliases, resolver, reverse);
      left := left - {caller};
      assert graph[caller] == Callees(funcBodies[caller], caller.pkgID, aliases, byImport);
    }
  }

  method CollectBodies(project: Project) returns (funcBodies: map<Key, seq<Call>>, importAliases: map<string, map<string, string>>)
    ensures funcBodies == Bodies(Files(project))
    ensures forall id :: (if id in importAliases then importAliases[id] else map[]) == Aliases(Files(project), id)
  {
    funcBodies, importAliases := map[], map[];
    ghost var done: seq<(string, File)> := [];
    for i := 0 to |project|
      invariant done == Files(project[..i])
      invariant funcBodies == Bodies(done)
      invariant forall id :: (if id in importAliases then importAliases[id] else map[]) == Aliases(done, id)
    {
      assert project[..i + 1][..i] == project[..i];
      funcBodies, importAliases := CollectPackage(project[i], funcBodies, importAliases, done);
      done := done + PackageFiles(project[i]);
    }
    assert project[..|project|] == project;
  }

  lemma {:induction false} OneMoreFile(files: seq<(string, File)>, owner: string, file: File)
    ensures Bodies(files + [(owner, file)]) == Bodies(files) + DeclBodies(owner, file.decls)
    ensures forall id :: Aliases(files + [(owner, file)], id) == if owner == id then Aliases(files, id) + file.aliases else Aliases(files, id)
  {
    assert (files + [(owner, file)])[..|files|] == files;
  }

  // The files of one package; "done" lists those of the packages before it.
  method CollectPackage(pkg: Package, bodies: map<Key, seq<Call>>, aliases: map<string, map<string, string>>, ghost done: seq<(string, File)>)
    returns (funcBodies: map<Key, seq<Call>>, importAliases: map<string, map<string, string>>)
    requires bodies == Bodies(done)
    requires forall id :: (if id in aliases then aliases[id] else map[]) == Aliases(done, id)
    ensures funcBodies == Bodies(done + PackageFiles(pkg))
    ensures forall id :: (if id in importAliases then importAliases[id] else map[]) == Aliases(done + PackageFiles(pkg), id)
  {
    funcBodies, importAliases := bodies, aliases;
    hide DeclBodies, Bodies, Aliases;
    assert done + PackageFiles(pkg)[..0] == done;
    for j := 0 to |pkg.files|
      invariant funcBodies == Bodies(done + PackageFiles(pkg)[..j])
      invariant forall id :: (if id in importAliases then importAliases[id] else map[]) == Aliases(done + PackageFiles(pkg)[..j], id)
    {
      var file := pkg.files[j];
      ghost var now := done + PackageFiles(pkg)[..j];
      assert done + PackageFiles(pkg)[..j + 1] == now + [(pkg.id, file)];
      OneMoreFile(now, pkg.id, file);
      var merged := (if pkg.id in importAliases then importAliases[pkg.id] else map[]) + file.aliases;
      importAliases := importAliases[pkg.id := merged];
      funcBodies := CollectDecls(pkg.id, file.decls, funcBodies);
    }
    assert PackageFiles(pkg)[..|pkg.files|] == PackageFiles(pkg);
  }

  method CollectDecls(id: string, decls: seq<FuncDecl>, before: map<Key, seq<Call>>) returns (r: map<Key, seq<Call>>)
    ensures r == before + DeclBodies(id, decls)
  {
    r := before;
    for i := 0 to |decls|
      invariant r == before + DeclBodies(id, decls[..i])
    {
      assert decls[..i + 1][..i] == decls[..i];
      if decls[i].body.None? {
        continue;
      }
      r := r[Key(id, decls[i].name) := decls[i].body.value];
    }
    assert decls[..|decls|] == decls;
  }

  // The ast.Inspect over one body.
  method AddCallers(caller: Key, calls: seq<Call>, aliases: map<string, string>, byImport: map<string, seq<string>>, before: map<Key, seq<Key>>)
    returns (reverse: map<Key, seq<Key>>)
    ensures forall a, b :: Edge(reverse, b, a) <==>
      Edge(before, b, a) || (a == caller && b in Callees(calls, caller.pkgID, aliases, byImport))
  {
    reverse := before;
    for i := 0 to |calls|
      invariant forall a, b :: Edge(reverse, b, a) <==>
        Edge(before, b, a) || (a == caller && b in Callees(calls[..i], caller.pkgID, aliases, byImport))
    {
      assert calls[..i + 1][..i] == calls[..i];
      var callee := ResolveFunctionCall(caller.pkgID, calls[i], false, aliases, byImport, None);
      assert Callees(calls[..i + 1], caller.pkgID, aliases, byImport)
          == Callees(calls[..i], caller.pkgID, aliases, byImport) + if callee.Some? then [callee.value] else [];
      if callee.None? {
        continue;
      }
      var k := callee.value;
      ghost var prev := reverse;
      reverse := reverse[k := (if k in reverse then reverse[k] else []) + [caller]];
      assert forall a, b :: Edge(reverse, b, a) <==> Edge(prev, b, a) || (a == caller && b == k);
    }
    assert calls[..|calls|] == calls;
  }

  // ---- candidate tests

  function KeyOf(t: TestRef): Key
  {
    Key(t.pkgID, t.name)
  }

  // The tests that satisfy a property, in order.
  ghost function Keep(tests: seq<TestRef>, p: Key -> bool): seq<TestRef>
  {
    if tests == [] then []
    else Keep(tests[..|tests| - 1], p) + if p(KeyOf(tests[|tests| - 1])) then [tests[|tests| - 1]] else []
  }

  lemma {:induction false} KeepMember(tests: seq<TestRef>, p: Key -> bool)
    ensures forall t :: t in Keep(tests, p) <==> t in tests && p(KeyOf(t))
  {
    if tests != [] {
      KeepMember(tests[..|tests| - 1], p);
      assert tests == tests[..|tests| - 1] + [tests[|tests| - 1]];
    }
  }

  /** The tests that have the property, in their order. */
  lemma {:induction false} KeepPicks(tests: seq<TestRef>, p: Key -> bool) returns (at: seq<nat>)
    ensures Picks(tests, at, Keep(tests, p))
    ensures forall i: nat :: i in at <==> i < |tests| && p(KeyOf(tests[i]))
  {
    at := [];
    if tests != [] {
      var m := |tests| - 1;
      at := KeepPicks(tests[..m], p);
      PicksMore(tests[..m], at, Keep(tests[..m], p), tests[m]);
      assert tests == tests[..m] + [tests[m]];
      assert forall i: nat :: i < m ==> tests[..m][i] == tests[i];
      if p(KeyOf(tests[m])) {
        at := at + [m];
      }
    }
  }

  /** candidateTestsByReachability. With a known enclosing function: exactly the tests with a
      forward path of resolved calls to it, in input order; otherwise all tests. */
  method CandidateTests(tests: seq<TestRef>, point: Point, reverse: map<Key, seq<Key>>, ghost graph: map<Key, seq<Key>>)
    returns (out: seq<TestRef>)
    requires Transposed(graph, reverse)
    ensures point.enclosing.None? ==> out == tests
    ensures point.enclosing.Some? ==>
      out == Keep(tests, k => Reaches(graph, k, Key(point.pkgID, point.enclosing.value)))
  {
    if point.enclosing.None? {
      return tests;
    }
    var seed := Key(point.pkgID, point.enclosing.value);
    var seen := Closure(reverse, [seed]);
    ghost var p := k => Reaches(graph, k, seed);
    forall k: Key ensures k in seen <==> p(k) {
      assert ReachedFrom(reverse, [seed], k) <==> Reaches(reverse, seed, k);
      BackwardIsForward(graph, reverse, k, seed);
    }
    out := [];
    for i := 0 to |tests|
      invariant out == Keep(tests[..i], p)
    {
      assert tests[..i + 1][..i] == tests[..i];
      if KeyOf(tests[i]) in seen {
        out := out + [tests[i]];
      }
    }
    assert tests[..|tests|] == tests;
  }

  // ---- packages

  ghost predicate DependsOn(project: Project, depender: string, imp: string)
  {
    exists k :: 0 <= k < |project| && project[k].importPath == depender && imp in project[k].imports
  }

  ghost predicate IsImportedBy(project: Project, importedBy: map<string, seq<string>>)
  {
    forall imp, depender :: Edge(importedBy, imp, depender) <==> DependsOn(project, depender, imp)
  }

  ghost predicate Allowed(importedBy: map<string, seq<string>>, root: string, path: string)
  {
    path == root || (root != "" && Reaches(importedBy, root, path))
  }

  /** reverseDependers: the packages that import the root directly or indirectly, and the root. */
  method ReverseDependers(project: Project, root: string, ghost importedBy: map<string, seq<string>>) returns (allowed: set<string>)
    requires IsImportedBy(project, importedBy)
    ensures forall path :: path in allowed <==> Allowed(importedBy, root, path)
  {
    allowed := {root};
    if root == "" {
      return;
    }
    var reverse := BuildImportedBy(project);
    allowed := Closure(reverse, [root]);
    ReachesSelf(importedBy, root);
    forall path ensures ReachedFrom(reverse, [root], path) <==> Reaches(importedBy, root, path) {
      SameReach(reverse, importedBy, root, path);
      assert ReachedFrom(reverse, [root], path) <==> Reaches(reverse, root, path);
    }
  }

  method BuildImportedBy(project: Project) returns (reverse: map<string, seq<string>>)
    ensures IsImportedBy(project, reverse)
  {
    reverse := map[];
    for i := 0 to |project|
      invariant IsImportedBy(project[..i], reverse)
    {
      var pkg := project[i];
      ghost var before := reverse;
      for j := 0 to |pkg.imports|
        invariant forall imp, d :: Edge(reverse, imp, d) <==> Edge(before, imp, d) || (d == pkg.importPath && imp in pkg.imports[..j])
      {
        var imp := pkg.imports[j];
        ghost var prev := reverse;
        reverse := reverse[imp := (if imp in reverse then reverse[imp] else []) + [pkg.importPath]];
        assert forall x, d :: Edge(reverse, x, d) <==> Edge(prev, x, d) || (x == imp && d == pkg.importPath);
      }
      assert pkg.imports[..|pkg.imports|] == pkg.imports;
      DependsOneMore(project, i);
    }
    assert project[..|project|] == project;
  }

  lemma DependsOneMore(project: Project, i: nat)
    requires i < |project|
    ensures forall d, imp :: DependsOn(project[..i + 1], d, imp) <==>
      DependsOn(project[..i], d, imp) || (d == project[i].importPath && imp in project[i].imports)
  {
    forall d, imp
      ensures DependsOn(project[..i + 1], d, imp) <==> DependsOn(project[..i], d, imp) || (d == project[i].importPath && imp in project[i].imports)
    {
      assert project[..i + 1][i] == project[i];
      assert forall k :: 0 <= k < i ==> project[..i + 1][k] == project[..i][k];
    }
  }

  // ---- Select

  // Per allowed import path, the names of the candidates there, sorted and unique.
  ghost predicate IsSelection(candidates: seq<TestRef>, allowed: string -> bool, r: map<string, seq<string>>)
  {
    && (forall path :: path in r ==> StrictlySorted(r[path]) && r[path] != [])
    && (forall path, name :: path in r && name in r[path] <==> allowed(path) && HasCandidate(candidates, path, name))
  }

  ghost predicate HasCandidate(candidates: seq<TestRef>, path: string, name: string)
  {
    exists t :: t in candidates && t.importPath == path && t.name == name
  }

  // No reachable test means: fall back to all of them.
  function Candidates(tests: seq<TestRef>, fromBackend: seq<TestRef>): seq<TestRef>
  {
    if tests == [] then [] else if fromBackend == [] then tests else fromBackend
  }

  ghost predicate IsSelect(importedBy: map<string, seq<string>>, tests: seq<TestRef>, fromBackend: seq<TestRef>, point: Point, selected: map<string, seq<string>>)
  {
    IsSelection(Candidates(tests, fromBackend), path => Allowed(importedBy, point.importPath, path), selected)
  }

  /** The conditions leave no choice. */
  lemma SelectionUnique(candidates: seq<TestRef>, allowed: string -> bool, a: map<string, seq<string>>, b: map<string, seq<string>>)
    requires IsSelection(candidates, allowed, a) && IsSelection(candidates, allowed, b)
    ensures a == b
  {
    SelectionWithin(candidates, allowed, a, b);
    SelectionWithin(candidates, allowed, b, a);
    assert a.Keys == b.Keys;
    forall path | path in a
      ensures a[path] == b[path]
    {
      StrictlySortedUnique(a[path], b[path]);
    }
  }

  lemma SelectionWithin(candidates: seq<TestRef>, allowed: string -> bool, a: map<string, seq<string>>, b: map<string, seq<string>>)
    requires IsSelection(candidates, allowed, a) && IsSelection(candidates, allowed, b)
    ensures forall path :: path in a ==> path in b && forall name :: name in a[path] ==> name in b[path]
  {
    hide StrictlySorted, HasCandidate;
    forall path | path in a
      ensures path in b
    {
      assert a[path][0] in a[path];
    }
  }

  /** Selector.Select. */
  method Select(project: Project, tests: seq<TestRef>, point: Point, fromBackend: seq<TestRef>, ghost importedBy: map<string, seq<string>>)
    returns (selected: map<string, seq<string>>)
    requires IsImportedBy(project, importedBy)
    ensures IsSelect(importedBy, tests, fromBackend, point, selected)
    ensures tests == [] ==> selected == map[]
    ensures tests != [] && fromBackend == [] ==>
      forall path, name :: path in selected && name in selected[path] <==> Allowed(importedBy, point.importPath, path) && HasCandidate(tests, path, name)
    ensures tests != [] && fromBackend != [] ==>
      forall path, name :: path in selected && name in selected[path] <==> Allowed(importedBy, point.importPath, path) && HasCandidate(fromBackend, path, name)
  {
    if |tests| == 0 {
      return map[];
    }
    var allowedPkgs := ReverseDependers(project, point.importPath, importedBy);
    var candidate := fromBackend;
    if |candidate| == 0 {
      candidate := tests;
    }
    var unique := GatherNames(candidate, allowedPkgs);
    selected := SortNames(unique);
  }

  // The names of the candidates in the allowed packages, as nested sets.
  ghost predicate Gathered(candidates: seq<TestRef>, allowedPkgs: set<string>, unique: map<string, map<string, ()>>)
  {
    && (forall path :: path in unique ==> unique[path] != map[])
    && forall path, name :: path in unique && name in unique[path] <==> path in allowedPkgs && HasCandidate(candidates, path, name)
  }

  method GatherNames(candidate: seq<TestRef>, allowedPkgs: set<string>) returns (unique: map<string, map<string, ()>>)
    ensures Gathered(candidate, allowedPkgs, unique)
  {
    unique := map[];
    for i := 0 to |candidate|
      invariant Gathered(candidate[..i], allowedPkgs, unique)
    {
      hide Gathered;
      var test := candidate[i];
      assert candidate[..i + 1] == candidate[..i] + [test];
      GatheredStep(candidate[..i], allowedPkgs, unique, test);
      if test.importPath !in allowedPkgs {
        continue;
      }
      unique := unique[test.importPath := (if test.importPath in unique then unique[test.importPath] else map[])[test.name := ()]];
    }
    assert candidate[..|candidate|] == candidate;
  }

  lemma GatheredStep(candidates: seq<TestRef>, allowedPkgs: set<string>, unique: map<string, map<string, ()>>, t: TestRef)
    requires Gathered(candidates, allowedPkgs, unique)
    ensures Gathered(candidates + [t], allowedPkgs,
                     if t.importPath !in allowedPkgs then unique
                     else unique[t.importPath := (if t.importPath in unique then unique[t.importPath] else map[])[t.name := ()]])
  {
    hide HasCandidate;
    OneMoreCandidate(candidates, t);
    var names := (if t.importPath in unique then unique[t.importPath] else map[])[t.name := ()];
    assert t.name in names;
  }

  lemma OneMoreCandidate(candidates: seq<TestRef>, t: TestRef)
    ensures forall path, name :: HasCandidate(candidates + [t], path, name) <==> HasCandidate(candidates, path, name) || (t.importPath == path && t.name == name)
  {
    assert forall x :: x in candidates + [t] <==> x in candidates || x == t;
  }

  method SortNames(unique: map<string, map<string, ()>>) returns (selected: map<string, seq<string>>)
    requires forall path :: path in unique ==> unique[path] != map[]
    ensures selected.Keys == unique.Keys
    ensures forall path :: path in selected ==>
      StrictlySorted(selected[path]) && selected[path] != [] && forall name :: name in selected[path] <==> name in unique[path]
  {
    selected := map[];
    var left := unique.Keys;
    while left != {}
      invariant left <= unique.Keys && selected.Keys == unique.Keys - left
      invariant forall path :: path in selected ==>
        StrictlySorted(selected[path]) && selected[path] != [] && forall name :: name in selected[path] <==> name in unique[path]
      decreases left
    {
      var path :| path in left;
      var names := SortedKeys(unique[path]);
      ghost var some :| some in unique[path];
      assert some in names;
      selected, left := selected[path := names], left - {path};
    }
  }
}
