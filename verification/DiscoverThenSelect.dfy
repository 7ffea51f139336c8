/** loadProjectAndSelector (engine_run_helpers.go) with the AST backend: DiscoverDetailed
    followed by Selector.Select on the tests it includes. */
module DiscoverThenSelect {
  import opened Order
  import opened Resolve
  import opened Select
  import opened Declarations
  import opened Discover
  import opened DiscoverMeaning
  import opened Pruning

  /** A discovered test names a package of the project by its ID and import path. */
  lemma TestsLocated(project: Project, t: TestRef)
    requires t in Tests(project)
    ensures Located(project, t)
  {
    var at := TestsListed(project);
    var k :| 0 <= k < |Tests(project)| && Tests(project)[k] == t;
    assert IsTestOf(project, at[k], t);
    assert project[at[k].pkg].id == t.pkgID && project[at[k].pkg].importPath == t.importPath;
  }

  // A test declaration that is not left out.
  ghost predicate TakesPart(project: Project, known: set<Key>, t: TestRef)
  {
    !LeftOutIn(project, known, KeyOf(t)) && exists p :: IsTestOf(project, p, t)
  }

  // A test that takes part and reaches the point's function has this path and name.
  ghost predicate ReachingName(project: Project, known: set<Key>, point: Point, path: string, name: string)
    requires point.enclosing.Some?
  {
    exists t :: TakesPart(project, known, t) && ReachesPoint(project, t, point) && t.importPath == path && t.name == name
  }

  /** For a point in a known function that some test which takes part reaches, the selection
      is exactly the names of those tests: neither the directives, nor the exclusion of tests
      that run the engine, nor the package filter lets another name in or one of these out. */
  method DiscoverAndSelect(project: Project, point: Point, ghost importedBy: map<string, seq<string>>)
    returns (selected: map<string, seq<string>>, ghost known: set<Key>)
    requires IsImportedBy(project, importedBy) && Consistent(project)
    requires HasPackage(project, point.pkgID, point.importPath)
    ensures IsDeclaredSet(project, known)
    ensures forall path :: path in selected ==> StrictlySorted(selected[path]) && selected[path] != []
    ensures point.enclosing.Some? && (exists t :: TakesPart(project, known, t) && ReachesPoint(project, t, point)) ==>
      forall path, name :: path in selected && name in selected[path] <==> ReachingName(project, known, point, path, name)
  {
    hide IsByImport, IsImportedBy, Consistent, HasPackage, StrictlySorted, LeftOutIn, ReachesPoint, Located, IsDeclaredSet, IncludedWhere, TakesPart;
    var byImport := BuildByImport(project);
    known := Keys(Records(project));
    KeysDeclared(project);
    var included, excluded := DiscoverProject(project, known);
    ghost var takes :| IncludedWhere(project, known, included, takes);
    forall t
      ensures t in included <==> TakesPart(project, known, t)
      ensures t in included ==> Located(project, t)
    {
      IncludedTakesPart(project, known, included, takes, t);
    }
    selected := SelectAST(project, included, point, byImport, importedBy);
    forall path, name | point.enclosing.Some?
      ensures HasReachingTest(project, included, point, path, name) <==> ReachingName(project, known, point, path, name)
    {
    }
  }

  lemma IncludedTakesPart(project: Project, known: set<Key>, included: seq<TestRef>, at: seq<Pos>, t: TestRef)
    requires IncludedWhere(project, known, included, at)
    ensures t in included <==> TakesPart(project, known, t)
    ensures t in included ==> Located(project, t)
  {
    hide LeftOutIn;
    if t in included {
      var k :| 0 <= k < |included| && included[k] == t;
      assert IsTestOf(project, at[k], t) && at[k] in at;
      assert project[at[k].pkg].id == t.pkgID && project[at[k].pkg].importPath == t.importPath;
    }
    if TakesPart(project, known, t) {
      var p :| IsTestOf(project, p, t);
      assert KeyAt(project, p) == KeyOf(t);
      var k :| 0 <= k < |at| && at[k] == p;
      assert IsTestOf(project, p, included[k]) && included[k] == t;
    }
  }
}
