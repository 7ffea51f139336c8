/** Why pruning by package is safe: a chain of resolved calls never leaves the packages that
    import the mutated one, so Select keeps every test that function reachability finds. */
module Pruning {
  import opened Order
  import opened Graph
  import opened Resolve
  import opened Select
  import opened CallMeaning
  import opened Wrappers

  // What go/packages guarantees of a loaded project.
  ghost predicate Consistent(project: Project)
  {
    && (forall i, j :: 0 <= i < |project| && 0 <= j < |project| && project[i].id == project[j].id ==> project[i].importPath == project[j].importPath)
    && (forall i, f, x :: 0 <= i < |project| && f in project[i].files && x in f.aliases && InProject(project, f.aliases[x]) ==> f.aliases[x] in project[i].imports)
  }

  ghost predicate InProject(project: Project, path: string)
  {
    exists k :: 0 <= k < |project| && project[k].importPath == path
  }

  lemma {:induction false} FilesComeFromPackages(project: Project, id: string, f: File)
    requires (id, f) in Files(project)
    ensures exists k :: 0 <= k < |project| && project[k].id == id && f in project[k].files
  {
    var m := |project| - 1;
    if (id, f) in PackageFiles(project[m]) {
      assert f in project[m].files;
    } else {
      FilesComeFromPackages(project[..m], id, f);
      var k :| 0 <= k < m && project[..m][k].id == id && f in project[..m][k].files;
      assert project[k] == project[..m][k];
    }
  }

  lemma {:induction false} AliasComesFromFile(files: seq<(string, File)>, id: string, x: string)
    requires x in Aliases(files, id)
    ensures exists f :: (id, f) in files && x in f.aliases && f.aliases[x] == Aliases(files, id)[x]
  {
    var m := |files| - 1;
    if files[m].0 == id && x in files[m].1.aliases {
      assert (id, files[m].1) in files;
    } else {
      AliasComesFromFile(files[..m], id, x);
      var f :| (id, f) in files[..m] && x in f.aliases && f.aliases[x] == Aliases(files[..m], id)[x];
      assert (id, f) in files;
    }
  }

  lemma {:induction false} BodyComesFromFile(files: seq<(string, File)>, a: Key)
    requires a in Bodies(files)
    ensures exists f :: (a.pkgID, f) in files
  {
    var m := |files| - 1;
    if a in DeclBodies(files[m].0, files[m].1.decls) {
      DeclKeysHaveID(files[m].0, files[m].1.decls, a);
      assert (a.pkgID, files[m].1) in files;
    } else {
      BodyComesFromFile(files[..m], a);
      var f :| (a.pkgID, f) in files[..m];
      assert (a.pkgID, f) in files;
    }
  }

  lemma {:induction false} DeclKeysHaveID(id: string, decls: seq<FuncDecl>, a: Key)
    requires a in DeclBodies(id, decls)
    ensures a.pkgID == id
  {
    if a in DeclBodies(id, decls[..|decls| - 1]) {
      DeclKeysHaveID(id, decls[..|decls| - 1], a);
    }
  }

  lemma {:induction false} CalleeComesFromCall(calls: seq<Call>, current: string, aliases: map<string, string>, byImport: map<string, seq<string>>, b: Key)
    returns (call: Call)
    requires b in Callees(calls, current, aliases, byImport)
    ensures call in calls && ResolveFunctionCall(current, call, false, aliases, byImport, None) == Some(b)
  {
    var m := |calls| - 1;
    if ResolveFunctionCall(current, calls[m], false, aliases, byImport, None) == Some(b) {
      call := calls[m];
    } else {
      call := CalleeComesFromCall(calls[..m], current, aliases, byImport, b);
    }
  }

  /** One resolved call either stays in its package or goes to a package that the caller's
      package imports. */
  lemma CallFollowsImport(project: Project, byImport: map<string, seq<string>>, importedBy: map<string, seq<string>>,
                          a: Key, b: Key, pathB: string)
    returns (pathA: string)
    requires Consistent(project) && IsByImport(project, byImport) && IsImportedBy(project, importedBy)
    requires Edge(CallGraph(project, byImport), a, b) && HasPackage(project, b.pkgID, pathB)
    ensures HasPackage(project, a.pkgID, pathA)
    ensures pathA == pathB || (pathB != "" && Edge(importedBy, pathB, pathA))
  {
    var files := Files(project);
    var aliases := Aliases(files, a.pkgID);
    BodyComesFromFile(files, a);
    var g :| (a.pkgID, g) in files;
    FilesComeFromPackages(project, a.pkgID, g);
    var i :| 0 <= i < |project| && project[i].id == a.pkgID;
    pathA := project[i].importPath;
    var call := CalleeComesFromCall(Bodies(files)[a], a.pkgID, aliases, byImport, b);
    if call.callee.Selector? {
      var x, t := call.callee.alias.value, aliases[call.callee.alias.value];
      LookupFinds(project, t, call.callee.sel, a.pkgID, byImport, None);
      AliasComesFromFile(files, a.pkgID, x);
      var f :| (a.pkgID, f) in files && x in f.aliases && f.aliases[x] == t;
      FilesComeFromPackages(project, a.pkgID, f);
      var k :| 0 <= k < |project| && project[k].id == a.pkgID && f in project[k].files;
      assert HasPackage(project, b.pkgID, t) && InProject(project, t);
      assert DependsOn(project, project[k].importPath, t);
      SamePath(project, b.pkgID, t, pathB);
    } else {
      SamePath(project, a.pkgID, pathA, pathB);
    }
  }

  lemma SamePath(project: Project, id: string, p: string, q: string)
    requires Consistent(project) && HasPackage(project, id, p) && HasPackage(project, id, q)
    ensures p == q
  {
  }

  lemma {:induction false} PathFollowsImports(project: Project, byImport: map<string, seq<string>>, importedBy: map<string, seq<string>>,
                                              path: seq<Key>, a: Key, seed: Key, root: string)
    returns (pathA: string)
    requires Consistent(project) && IsByImport(project, byImport) && IsImportedBy(project, importedBy)
    requires IsPath(CallGraph(project, byImport), path, a, seed) && HasPackage(project, seed.pkgID, root)
    ensures HasPackage(project, a.pkgID, pathA) && Allowed(importedBy, root, pathA)
  {
    if |path| == 1 {
      pathA := root;
    } else {
      var pathB := PathFollowsImports(project, byImport, importedBy, path[1..], path[1], seed, root);
      pathA := CallFollowsImport(project, byImport, importedBy, a, path[1], pathB);
      if pathA != pathB {
        if root != "" { ReachesSelf(importedBy, root); ReachesEdge(importedBy, root, pathB, pathA); }
      }
    }
  }

  // The test and the mutation point name packages of the project.
  ghost predicate Located(project: Project, t: TestRef)
  {
    HasPackage(project, t.pkgID, t.importPath)
  }

  /** Pruning is conservative: every test with a forward path of resolved calls to the
      enclosing function lies in an allowed package. */
  lemma PruningLosesNothing(project: Project, byImport: map<string, seq<string>>, importedBy: map<string, seq<string>>,
                            t: TestRef, point: Point)
    requires Consistent(project) && IsByImport(project, byImport) && IsImportedBy(project, importedBy)
    requires Located(project, t) && point.enclosing.Some? && HasPackage(project, point.pkgID, point.importPath)
    requires ReachesPoint(project, t, point)
    ensures Allowed(importedBy, point.importPath, t.importPath)
  {
    hide ReachesPoint, IsPath, Consistent, IsByImport, IsImportedBy, Allowed, HasPackage;
    ReachesPointMeans(project, byImport, t, point);
    var seed := Key(point.pkgID, point.enclosing.value);
    var p :| IsPath(CallGraph(project, byImport), p, KeyOf(t), seed);
    var pathA := PathFollowsImports(project, byImport, importedBy, p, KeyOf(t), seed, point.importPath);
    SamePath(project, t.pkgID, pathA, t.importPath);
  }

  /** The AST backend end to end. For a point in a known function that some test reaches, the
      selection holds exactly the reaching tests' names, package by package: the package
      filter removes none of them. */
  method SelectAST(project: Project, tests: seq<TestRef>, point: Point, ghost byImport: map<string, seq<string>>,
                   ghost importedBy: map<string, seq<string>>)
    returns (selected: map<string, seq<string>>)
    requires IsByImport(project, byImport) && IsImportedBy(project, importedBy)
    requires Consistent(project) && (forall t :: t in tests ==> Located(project, t))
    requires HasPackage(project, point.pkgID, point.importPath)
    ensures forall path :: path in selected ==> StrictlySorted(selected[path]) && selected[path] != []
    ensures point.enclosing.Some? && (exists t :: t in tests && ReachesPoint(project, t, point)) ==>
      forall path, name :: path in selected && name in selected[path] <==>
        HasReachingTest(project, tests, point, path, name)
  {
    var reverse := BuildReverseCallers(project, byImport);
    ghost var graph := CallGraph(project, byImport);
    var candidates := CandidateTests(tests, point, reverse, graph);
    selected := Select.Select(project, tests, point, candidates, importedBy);
    hide Reaches, ReachesPoint, IsPath, IsByImport, IsImportedBy, Transposed, Consistent, StrictlySorted, Allowed;
    if point.enclosing.Some? {
      KeepMember(tests, k => Reaches(graph, k, Key(point.pkgID, point.enclosing.value)));
      forall t | t in tests
        ensures Reaches(graph, KeyOf(t), Key(point.pkgID, point.enclosing.value)) <==> ReachesPoint(project, t, point)
      {
        ReachesPointMeans(project, byImport, t, point);
      }
      assert forall t :: t in candidates <==> t in tests && ReachesPoint(project, t, point);
      forall t | t in candidates ensures Allowed(importedBy, point.importPath, t.importPath) {
        PruningLosesNothing(project, byImport, importedBy, t, point);
      }
      if candidates != [] {
        assert forall path, name :: HasCandidate(candidates, path, name) ==> Allowed(importedBy, point.importPath, path);
        NamesOfReaching(project, tests, candidates, point);
        assert forall path, name :: path in selected && name in selected[path] <==> HasCandidate(candidates, path, name);
      } else {
        assert forall t :: t in tests ==> !ReachesPoint(project, t, point);
      }
    }
  }

  // A chain of calls leads from the test to the point's function.
  ghost predicate ReachesPoint(project: Project, t: TestRef, point: Point)
    requires point.enclosing.Some?
  {
    Linked((a, b) => Calls(project, a, b), KeyOf(t), Key(point.pkgID, point.enclosing.value))
  }

  lemma ReachesPointMeans(project: Project, byImport: map<string, seq<string>>, t: TestRef, point: Point)
    requires IsByImport(project, byImport) && point.enclosing.Some?
    ensures Reaches(CallGraph(project, byImport), KeyOf(t), Key(point.pkgID, point.enclosing.value)) <==> ReachesPoint(project, t, point)
  {
    hide IsByImport, Calls, Reaches, Linked, CallGraph;
    forall a, b
      ensures Edge(CallGraph(project, byImport), a, b) <==> Calls(project, a, b)
    {
      EdgeMeans(project, byImport, a, b);
    }
    ReachesIsLinked(CallGraph(project, byImport), (a, b) => Calls(project, a, b), KeyOf(t), Key(point.pkgID, point.enclosing.value));
  }

  ghost predicate HasReachingTest(project: Project, tests: seq<TestRef>, point: Point, path: string, name: string)
    requires point.enclosing.Some?
  {
    exists t :: t in tests && t.importPath == path && t.name == name && ReachesPoint(project, t, point)
  }

  lemma NamesOfReaching(project: Project, tests: seq<TestRef>, candidates: seq<TestRef>, point: Point)
    requires point.enclosing.Some? && forall t :: t in candidates <==> t in tests && ReachesPoint(project, t, point)
    ensures forall path, name :: HasCandidate(candidates, path, name) <==> HasReachingTest(project, tests, point, path, name)
  {
  }
}
