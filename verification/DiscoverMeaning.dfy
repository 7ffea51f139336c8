/** What DiscoverDetailed says of a test, on the project's own declarations. */
module DiscoverMeaning {
  import opened Graph
  import opened Resolve
  import opened Select
  import opened Declarations
  import opened Discover
  import opened Positions
  import opened Wrappers

  // ---- the records and the tests

  ghost predicate InOrder(at: seq<Pos>)
  {
    forall k, l :: 0 <= k < l < |at| ==> PosBefore(at[k], at[l])
  }

  ghost predicate IsRecordOf(project: Project, p: Pos, r: Record)
  {
    && IsPos(project, p) && DeclAt(project, p).body == Some(r.body)
    && r.key.pkgID == PackageAt(project, p).id && r.key.name == DeclAt(project, p).name
    && r.hasTypes == PackageAt(project, p).hasTypes && r.aliases == FileAt(project, p).aliases
    && r.directive == DeclAt(project, p).directive
  }

  ghost predicate IsTestOf(project: Project, p: Pos, t: TestRef)
  {
    && IsPos(project, p) && DeclAt(project, p).isTest
    && t.pkgID == PackageAt(project, p).id && t.importPath == PackageAt(project, p).importPath && t.name == DeclAt(project, p).name
  }

  /** There is one record for each declaration with a body, in loading order. */
  lemma RecordsListed(project: Project) returns (at: seq<Pos>)
    ensures |at| == |Records(project)| && InOrder(at)
    ensures forall k :: 0 <= k < |at| ==> IsRecordOf(project, at[k], Records(project)[k])
    ensures forall p :: IsPos(project, p) && DeclAt(project, p).body.Some? ==> p in at
  {
    hide Gather;
    at := GatherListed(project, RecordOf);
    forall k | 0 <= k < |at|
      ensures IsRecordOf(project, at[k], Records(project)[k])
    {
      assert Share(project, at[k], RecordOf) == [Records(project)[k]];
    }
    forall p | IsPos(project, p) && DeclAt(project, p).body.Some?
      ensures p in at
    {
      assert Share(project, p, RecordOf) != [];
    }
  }

  /** The discovered tests are exactly the declarations that are tests, in loading order. */
  lemma TestsListed(project: Project) returns (at: seq<Pos>)
    ensures |at| == |Tests(project)| && InOrder(at)
    ensures forall k :: 0 <= k < |at| ==> IsTestOf(project, at[k], Tests(project)[k])
    ensures forall p :: IsPos(project, p) && DeclAt(project, p).isTest ==> p in at
  {
    hide Gather;
    at := GatherListed(project, TestOf);
    forall k | 0 <= k < |at|
      ensures IsTestOf(project, at[k], Tests(project)[k])
    {
      assert Share(project, at[k], TestOf) == [Tests(project)[k]];
    }
    forall p | IsPos(project, p) && DeclAt(project, p).isTest
      ensures p in at
    {
      assert Share(project, p, TestOf) != [];
    }
  }

  /** A record exists if and only if some declaration has its contents. */
  lemma RecordExists(project: Project, r: Record)
    ensures r in Records(project) <==> exists p :: IsRecordOf(project, p, r)
  {
    hide Records;
    var at := RecordsListed(project);
    if p :| IsRecordOf(project, p, r) {
      var k :| 0 <= k < |at| && at[k] == p;
      assert IsRecordOf(project, p, Records(project)[k]);
      assert r == Records(project)[k];
    }
  }

  // ---- directives, calls and the engine

  ghost predicate DeclaredIn(project: Project, k: Key)
  {
    exists p :: Declares(project, p, k)
  }

  // The directive of the last declaration with a body under the key; none if there is none.
  ghost predicate DirectiveIn(project: Project, k: Key, d: Directive)
  {
    if DeclaredIn(project, k) then exists p :: LastUnder(project, p, k) && DeclAt(project, p).directive == d
    else d == NoDirective
  }

  // Some body under the key, in a package with type information, calls (*Engine).Run.
  ghost predicate RunsIn(project: Project, k: Key)
  {
    exists p :: Declares(project, p, k) && PackageAt(project, p).hasTypes && CallsEngine(DeclAt(project, p).body.value)
  }

  ghost predicate CallsEngine(body: seq<Call>)
  {
    exists c :: c in body && c.engineRun
  }

  // Some call of some body under a means the declared function b.
  ghost predicate CallsIn(project: Project, known: set<Key>, a: Key, b: Key)
  {
    exists p :: Declares(project, p, a) && CallsFrom(project, p, DeclAt(project, p).body.value, known, b)
  }

  ghost predicate CallsFrom(project: Project, p: Pos, body: seq<Call>, known: set<Key>, b: Key)
    requires IsPos(project, p)
  {
    exists c :: c in body && Means(project, p, c, known, b)
  }

  // The target that the type information names, if it is declared, or else the syntactic one.
  ghost predicate Means(project: Project, p: Pos, c: Call, known: set<Key>, b: Key)
    requires IsPos(project, p)
  {
    var pkg, aliases := PackageAt(project, p), FileAt(project, p).aliases;
    || TypedTarget(project, pkg.id, c, pkg.hasTypes, Some(known), b)
    || ((forall d :: !TypedTarget(project, pkg.id, c, pkg.hasTypes, Some(known), d)) && SyntaxTarget(project, pkg.id, c, aliases, Some(known), b))
  }

  ghost predicate IsDeclaredSet(project: Project, known: set<Key>)
  {
    forall k :: k in known <==> DeclaredIn(project, k)
  }

  // A test is left out by its directive, or without one if a chain of calls leads from it to
  // a function that runs the engine.
  ghost predicate LeftOutIn(project: Project, known: set<Key>, k: Key)
  {
    || DirectiveIn(project, k, Exclude)
    || (DirectiveIn(project, k, NoDirective) && exists t :: RunsIn(project, t) && Linked((a, b) => CallsIn(project, known, a, b), k, t))
  }

  // ---- they are what the code works out from the records

  lemma RecordDeclares(project: Project, p: Pos, r: Record)
    requires IsRecordOf(project, p, r)
    ensures Declares(project, p, r.key)
    ensures forall k :: Declares(project, p, k) ==> k == r.key
  {
  }

  lemma RecordOfDeclaration(project: Project, p: Pos, k: Key) returns (r: Record)
    requires Declares(project, p, k)
    ensures IsRecordOf(project, p, r) && r.key == k && r in Records(project)
  {
    hide Records;
    r := Record(k, PackageAt(project, p).hasTypes, FileAt(project, p).aliases, DeclAt(project, p).body.value, DeclAt(project, p).directive);
    RecordExists(project, r);
  }

  lemma DeclaredMeans(project: Project, k: Key)
    ensures Declared(Records(project), k) <==> DeclaredIn(project, k)
  {
    hide Records, IsRecordOf, Declares;
    if Declared(Records(project), k) {
      var r :| r in Records(project) && r.key == k;
      RecordExists(project, r);
      var p :| IsRecordOf(project, p, r);
      RecordDeclares(project, p, r);
    }
    if p :| Declares(project, p, k) {
      var r := RecordOfDeclaration(project, p, k);
    }
  }

  lemma RunsMeans(project: Project, k: Key)
    ensures RunsEngine(Records(project), k) <==> RunsIn(project, k)
  {
    hide Records;
    if RunsEngine(Records(project), k) {
      var r :| r in Records(project) && r.key == k && BodyRuns(r, r.body);
      RecordExists(project, r);
      var p :| IsRecordOf(project, p, r);
      RecordDeclares(project, p, r);
    }
    if p :| Declares(project, p, k) && PackageAt(project, p).hasTypes && CallsEngine(DeclAt(project, p).body.value) {
      var r := RecordOfDeclaration(project, p, k);
      assert BodyRuns(r, r.body);
    }
  }

  lemma BodyMeans(project: Project, byImport: map<string, seq<string>>, known: set<Key>, p: Pos, r: Record, b: Key)
    requires IsByImport(project, byImport) && IsRecordOf(project, p, r)
    ensures BodyCalls(r, r.body, byImport, known, b) <==> CallsFrom(project, p, DeclAt(project, p).body.value, known, b)
  {
    hide IsByImport, ResolveFunctionCall, TypedTarget, SyntaxTarget;
    forall c
      ensures ResolveFunctionCall(r.key.pkgID, c, r.hasTypes, r.aliases, byImport, Some(known)) == Some(b) <==> Means(project, p, c, known, b)
    {
      CallResolves(project, r.key.pkgID, c, r.hasTypes, r.aliases, byImport, Some(known), b);
    }
  }

  lemma CallsMeans(project: Project, byImport: map<string, seq<string>>, known: set<Key>, a: Key, b: Key)
    requires IsByImport(project, byImport)
    ensures CallsKey(Records(project), byImport, known, a, b) <==> CallsIn(project, known, a, b)
  {
    hide Records, IsByImport, BodyCalls, CallsFrom;
    if CallsKey(Records(project), byImport, known, a, b) {
      var r :| r in Records(project) && r.key == a && BodyCalls(r, r.body, byImport, known, b);
      RecordExists(project, r);
      var p :| IsRecordOf(project, p, r);
      RecordDeclares(project, p, r);
      BodyMeans(project, byImport, known, p, r, b);
    }
    if p :| Declares(project, p, a) && CallsFrom(project, p, DeclAt(project, p).body.value, known, b) {
      var r := RecordOfDeclaration(project, p, a);
      BodyMeans(project, byImport, known, p, r, b);
    }
  }

  lemma {:induction false} LastRecord(records: seq<Record>, k: Key) returns (m: nat)
    ensures Declared(records, k) ==>
      && m < |records| && records[m].key == k && DirectiveOf(records, k) == records[m].directive
      && forall l :: m < l < |records| ==> records[l].key != k
  {
    m := 0;
    if records != [] {
      var last := |records| - 1;
      if records[last].key == k {
        m := last;
      } else {
        m := LastRecord(records[..last], k);
        assert forall r :: r in records ==> r in records[..last] || r == records[last];
      }
    }
  }

  lemma {:induction false} DirectiveMeans(project: Project, k: Key, d: Directive)
    ensures DirectiveOf(Records(project), k) == d <==> DirectiveIn(project, k, d)
  {
    hide Records, IsRecordOf, Declares, DirectiveOf, Declared;
    DeclaredMeans(project, k);
    UndeclaredHasNoDirective(Records(project), k);
    if DeclaredIn(project, k) {
      var at := RecordsListed(project);
      var m := LastRecord(Records(project), k);
      var p := at[m];
      RecordDeclares(project, p, Records(project)[m]);
      RecordFields(project, p, Records(project)[m]);
      forall q | Declares(project, q, k)
        ensures !PosBefore(p, q)
      {
        LaterRecord(project, at, m, q, k);
      }
      assert LastUnder(project, p, k);
    }
  }

  lemma RecordFields(project: Project, p: Pos, r: Record)
    requires IsRecordOf(project, p, r)
    ensures IsPos(project, p) && r.directive == DeclAt(project, p).directive
  {
  }

  lemma LaterRecord(project: Project, at: seq<Pos>, m: nat, q: Pos, k: Key)
    requires |at| == |Records(project)| && InOrder(at) && m < |at| && Declares(project, q, k)
    requires forall i :: 0 <= i < |at| ==> IsRecordOf(project, at[i], Records(project)[i])
    requires forall p :: IsPos(project, p) && DeclAt(project, p).body.Some? ==> p in at
    requires forall l :: m < l < |at| ==> Records(project)[l].key != k
    ensures !PosBefore(at[m], q)
  {
    hide Records, IsRecordOf;
    var l :| 0 <= l < |at| && at[l] == q;
    RecordDeclares(project, q, Records(project)[l]);
  }

  /** The decision about a test, on the project's declarations. */
  lemma LeftOutMeans(project: Project, byImport: map<string, seq<string>>, known: set<Key>, k: Key)
    requires IsByImport(project, byImport) && IsDeclaredSet(project, known)
    ensures LeftOut(Records(project), byImport, k) <==> LeftOutIn(project, known, k)
  {
    hide Records, DirectiveOf, DirectiveIn, RunsEngine, RunsIn, CallsIn, CallsKey, Reaches, Linked, IsByImport, DeclaredIn, Discover.CallGraph;
    DirectiveMeans(project, k, Exclude);
    DirectiveMeans(project, k, NoDirective);
    var records := Records(project);
    var graph := Discover.CallGraph(records, byImport);
    forall a, b
      ensures Edge(graph, a, b) <==> CallsIn(project, known, a, b)
    {
      GraphMeans(project, byImport, known, a, b);
    }
    forall t
      ensures RunsEngine(records, t) <==> RunsIn(project, t)
      ensures Reaches(graph, k, t) <==> Linked((a, b) => CallsIn(project, known, a, b), k, t)
    {
      RunsMeans(project, t);
      ReachesIsLinked(graph, (a, b) => CallsIn(project, known, a, b), k, t);
    }
  }

  lemma GraphMeans(project: Project, byImport: map<string, seq<string>>, known: set<Key>, a: Key, b: Key)
    requires IsByImport(project, byImport) && IsDeclaredSet(project, known)
    ensures Edge(Discover.CallGraph(Records(project), byImport), a, b) <==> CallsIn(project, known, a, b)
  {
    hide Records, IsByImport, DeclaredIn, CallsKey, CallsIn, CalleesOf;
    KeysDeclared(project);
    assert Keys(Records(project)) == known;
    CalleesMember(Records(project), byImport, known, a, b);
    CallsMeans(project, byImport, known, a, b);
    CallsDeclared(project, known, a, b);
  }

  lemma CallsDeclared(project: Project, known: set<Key>, a: Key, b: Key)
    requires IsDeclaredSet(project, known)
    ensures CallsIn(project, known, a, b) ==> a in known
  {
  }

  function KeyAt(project: Project, p: Pos): Key
    requires IsPos(project, p)
  {
    Key(PackageAt(project, p).id, DeclAt(project, p).name)
  }

  // The tests at exactly the positions with the property, in loading order.
  ghost predicate TestsWhere(project: Project, keep: Key -> bool, tests: seq<TestRef>, at: seq<Pos>)
  {
    && |at| == |tests| && InOrder(at)
    && (forall k :: 0 <= k < |at| ==> IsTestOf(project, at[k], tests[k]))
    && forall p :: p in at <==> IsPos(project, p) && DeclAt(project, p).isTest && keep(KeyAt(project, p))
  }

  lemma KeptTests(project: Project, keep: Key -> bool) returns (at: seq<Pos>)
    ensures TestsWhere(project, keep, Keep(Tests(project), keep), at)
  {
    hide Tests, Keep, Picks, IsTestOf, InOrder;
    var all := TestsListed(project);
    var picks := KeepPicks(Tests(project), keep);
    PicksWithin(Tests(project), picks, Keep(Tests(project), keep));
    at := seq(|picks|, k requires 0 <= k < |picks| => all[picks[k]]);
    StaysInOrder(all, picks, at);
    forall k | 0 <= k < |at|
      ensures IsTestOf(project, at[k], Keep(Tests(project), keep)[k]) && IsPos(project, at[k]) && DeclAt(project, at[k]).isTest && keep(KeyAt(project, at[k]))
    {
      assert picks[k] in picks;
      TestKey(project, all[picks[k]], Tests(project)[picks[k]]);
    }
    forall p | IsPos(project, p) && DeclAt(project, p).isTest && keep(KeyAt(project, p))
      ensures p in at
    {
      var i :| 0 <= i < |all| && all[i] == p;
      TestKey(project, p, Tests(project)[i]);
      var k :| 0 <= k < |picks| && picks[k] == i;
      assert at[k] == p;
    }
  }

  lemma TestKey(project: Project, p: Pos, t: TestRef)
    requires IsTestOf(project, p, t)
    ensures IsPos(project, p) && DeclAt(project, p).isTest && KeyAt(project, p) == KeyOf(t)
  {
  }

  lemma StaysInOrder(all: seq<Pos>, picks: seq<nat>, at: seq<Pos>)
    requires InOrder(all) && |at| == |picks| && forall k :: 0 <= k < |at| ==> picks[k] < |all| && at[k] == all[picks[k]]
    requires forall k, l :: 0 <= k < l < |picks| ==> picks[k] < picks[l]
    ensures InOrder(at)
  {
  }

  lemma PicksWithin<T>(s: seq<T>, at: seq<nat>, r: seq<T>)
    requires Picks(s, at, r)
    ensures |at| == |r| && (forall k :: 0 <= k < |r| ==> at[k] < |s| && r[k] == s[at[k]])
    ensures forall k, l :: 0 <= k < l < |at| ==> at[k] < at[l]
  {
  }

  // The tests that are not left out.
  ghost predicate IncludedWhere(project: Project, known: set<Key>, included: seq<TestRef>, at: seq<Pos>)
  {
    TestsWhere(project, k => !LeftOutIn(project, known, k), included, at)
  }

  // The tests that are left out, each with its reason.
  ghost predicate ExcludedWhere(project: Project, known: set<Key>, excluded: seq<ExcludedTest>, at: seq<Pos>)
  {
    && |at| == |excluded| && InOrder(at)
    && (forall k :: 0 <= k < |at| ==>
          && IsTestOf(project, at[k], excluded[k].ref)
          && (excluded[k].reason == DirectiveExclude <==> DirectiveIn(project, KeyOf(excluded[k].ref), Exclude)))
    && forall p :: p in at <==> IsPos(project, p) && DeclAt(project, p).isTest && LeftOutIn(project, known, KeyAt(project, p))
  }

  /** DiscoverDetailed: included are exactly the test declarations that are not left out, and
      excluded exactly those that are, both in loading order; the reason given is the directive
      exactly if the last declaration's directive excludes. */
  method DiscoverProject(project: Project, ghost known: set<Key>) returns (included: seq<TestRef>, excluded: seq<ExcludedTest>)
    requires IsDeclaredSet(project, known)
    ensures exists at :: IncludedWhere(project, known, included, at)
    ensures exists at :: ExcludedWhere(project, known, excluded, at)
  {
    hide IsByImport, LeftOut, LeftOutIn, Keep, Records, Tests, DirectiveOf, DirectiveIn, IsDeclaredSet;
    var byImport := BuildByImport(project);
    included, excluded := DiscoverDetailed(project, byImport);
    forall k
      ensures LeftOut(Records(project), byImport, k) <==> LeftOutIn(project, known, k)
      ensures DirectiveOf(Records(project), k) == Exclude <==> DirectiveIn(project, k, Exclude)
    {
      LeftOutMeans(project, byImport, known, k);
      DirectiveMeans(project, k, Exclude);
    }
    KeepSame(Tests(project), k => !LeftOut(Records(project), byImport, k), k => !LeftOutIn(project, known, k));
    KeepSame(Tests(project), k => LeftOut(Records(project), byImport, k), k => LeftOutIn(project, known, k));
    ghost var takes := KeptTests(project, k => !LeftOutIn(project, known, k));
    ghost var leaves := KeptTests(project, k => LeftOutIn(project, known, k));
    RefsOf(excluded);
    assert IncludedWhere(project, known, included, takes) && ExcludedWhere(project, known, excluded, leaves);
  }

  lemma {:induction false} RefsOf(excluded: seq<ExcludedTest>)
    ensures |Refs(excluded)| == |excluded| && forall k :: 0 <= k < |excluded| ==> Refs(excluded)[k] == excluded[k].ref
  {
  }

  lemma KeysDeclared(project: Project)
    ensures IsDeclaredSet(project, Keys(Records(project)))
  {
    hide Records, DeclaredIn;
    forall k
      ensures k in Keys(Records(project)) <==> DeclaredIn(project, k)
    {
      DeclaredMeans(project, k);
      assert k in Keys(Records(project)) <==> Declared(Records(project), k);
    }
  }
}
