/** internal/selection/discover.go: which tests take part in mutation testing. A test that
    can reach (*Engine).Run is left out, unless a directive says otherwise. */
module Discover {
  import opened Graph
  import opened Resolve
  import opened Select
  import opened Declarations
  import opened Wrappers

  // One function declaration with a body, as collectFunctions records it.
  datatype Record = Record(key: Key, hasTypes: bool, aliases: map<string, string>, body: seq<Call>, directive: Directive)
  datatype Info = Info(calls: seq<Key>, hasEngineRun: bool, directive: Directive)
  type Infos = map<Key, Info>

  // ---- what the project declares

  function RecordOf(pkg: Package, file: File, d: FuncDecl): (r: seq<Record>)
    ensures |r| <= 1
  {
    if d.body.None? then [] else [Record(Key(pkg.id, d.name), pkg.hasTypes, file.aliases, d.body.value, d.directive)]
  }

  function Records(project: Project): seq<Record>
  {
    Gather(project, RecordOf)
  }

  ghost predicate Declared(records: seq<Record>, k: Key)
  {
    exists r :: r in records && r.key == k
  }

  // The directive of the last declaration under a key counts.
  ghost function DirectiveOf(records: seq<Record>, k: Key): Directive
  {
    if records == [] then NoDirective
    else if records[|records| - 1].key == k then records[|records| - 1].directive
    else DirectiveOf(records[..|records| - 1], k)
  }

  ghost predicate CallsKey(records: seq<Record>, byImport: map<string, seq<string>>, known: set<Key>, a: Key, b: Key)
  {
    exists r :: r in records && r.key == a && BodyCalls(r, r.body, byImport, known, b)
  }

  ghost predicate BodyCalls(r: Record, body: seq<Call>, byImport: map<string, seq<string>>, known: set<Key>, b: Key)
  {
    exists c :: c in body && ResolveFunctionCall(r.key.pkgID, c, r.hasTypes, r.aliases, byImport, Some(known)) == Some(b)
  }

  ghost predicate RunsEngine(records: seq<Record>, a: Key)
  {
    exists r :: r in records && r.key == a && BodyRuns(r, r.body)
  }

  ghost predicate BodyRuns(r: Record, body: seq<Call>)
  {
    exists c :: c in body && c.engineRun && r.hasTypes
  }

  // caller -> what the calls in its bodies resolve to, over all declared functions
  ghost function CallGraph(records: seq<Record>, byImport: map<string, seq<string>>): map<Key, seq<Key>>
  {
    var known := Keys(records);
    map a | a in known :: CalleesOf(records, byImport, known, a)
  }

  ghost function Keys(records: seq<Record>): set<Key>
  {
    set r | r in records :: r.key
  }

  ghost function CalleesOf(records: seq<Record>, byImport: map<string, seq<string>>, known: set<Key>, a: Key): seq<Key>
  {
    if records == [] then []
    else
      var r := records[|records| - 1];
      CalleesOf(records[..|records| - 1], byImport, known, a) + if r.key == a then BodyCallees(r, r.body, byImport, known) else []
  }

  ghost function BodyCallees(r: Record, body: seq<Call>, byImport: map<string, seq<string>>, known: set<Key>): seq<Key>
  {
    if body == [] then []
    else
      var callee := ResolveFunctionCall(r.key.pkgID, body[|body| - 1], r.hasTypes, r.aliases, byImport, Some(known));
      BodyCallees(r, body[..|body| - 1], byImport, known) + if callee.Some? then [callee.value] else []
  }

  lemma {:induction false} BodyCalleesMember(r: Record, body: seq<Call>, byImport: map<string, seq<string>>, known: set<Key>, b: Key)
    ensures b in BodyCallees(r, body, byImport, known) <==> BodyCalls(r, body, byImport, known, b)
  {
    if body != [] {
      BodyCalleesMember(r, body[..|body| - 1], byImport, known, b);
      OneMoreCall(r, body[..|body| - 1], body[|body| - 1], byImport, known);
      assert body == body[..|body| - 1] + [body[|body| - 1]];
    }
  }

  lemma {:induction false} CalleesMember(records: seq<Record>, byImport: map<string, seq<string>>, known: set<Key>, a: Key, b: Key)
    ensures b in CalleesOf(records, byImport, known, a) <==> CallsKey(records, byImport, known, a, b)
  {
    if records != [] {
      var r := records[|records| - 1];
      CalleesMember(records[..|records| - 1], byImport, known, a, b);
      BodyCalleesMember(r, r.body, byImport, known, b);
      OneMoreScanned(records[..|records| - 1], r, byImport, known);
      assert records == records[..|records| - 1] + [r];
    }
  }

  // A chain of resolved calls leads from k to a function that calls (*Engine).Run.
  ghost predicate RunReachable(records: seq<Record>, byImport: map<string, seq<string>>, k: Key)
  {
    exists t :: RunsEngine(records, t) && Reaches(CallGraph(records, byImport), k, t)
  }

  ghost predicate LeftOut(records: seq<Record>, byImport: map<string, seq<string>>, k: Key)
  {
    if DirectiveOf(records, k) != NoDirective then DirectiveOf(records, k) == Exclude else RunReachable(records, byImport, k)
  }

  // ---- collectFunctions and buildCalls

  method CollectFunctions(project: Project) returns (infos: Infos, records: seq<Record>)
    ensures records == Records(project)
    ensures forall k :: k in infos <==> Declared(records, k)
    ensures forall k :: k in infos ==> infos[k] == Info([], false, DirectiveOf(records, k))
  {
    infos, records := map[], [];
    assert forall k :: !Declared(records, k);
    hide Declared, DirectiveOf, GatherDecls;
    for i := 0 to |project|
      invariant records == Records(project[..i])
      invariant forall k :: k in infos <==> Declared(records, k)
      invariant forall k :: k in infos ==> infos[k] == Info([], false, DirectiveOf(records, k))
    {
      var pkg := project[i];
      assert project[..i + 1][..i] == project[..i];
      for j := 0 to |pkg.files|
        invariant records == Records(project[..i]) + GatherFiles(pkg, pkg.files[..j], RecordOf)
        invariant forall k :: k in infos <==> Declared(records, k)
        invariant forall k :: k in infos ==> infos[k] == Info([], false, DirectiveOf(records, k))
      {
        assert pkg.files[..j + 1][..j] == pkg.files[..j];
        infos, records := CollectFile(pkg, pkg.files[j], infos, records);
      }
      assert pkg.files[..|pkg.files|] == pkg.files;
    }
    assert project[..|project|] == project;
  }

  method CollectFile(pkg: Package, file: File, infos0: Infos, records0: seq<Record>) returns (infos: Infos, records: seq<Record>)
    requires forall k :: k in infos0 <==> Declared(records0, k)
    requires forall k :: k in infos0 ==> infos0[k] == Info([], false, DirectiveOf(records0, k))
    ensures records == records0 + GatherDecls(pkg, file, file.decls, RecordOf)
    ensures forall k :: k in infos <==> Declared(records, k)
    ensures forall k :: k in infos ==> infos[k] == Info([], false, DirectiveOf(records, k))
  {
    infos, records := infos0, records0;
    hide Declared, DirectiveOf;
    for i := 0 to |file.decls|
      invariant records == records0 + GatherDecls(pkg, file, file.decls[..i], RecordOf)
      invariant forall k :: k in infos <==> Declared(records, k)
      invariant forall k :: k in infos ==> infos[k] == Info([], false, DirectiveOf(records, k))
    {
      var d := file.decls[i];
      assert file.decls[..i + 1][..i] == file.decls[..i];
      if d.body.None? {
        continue;
      }
      var key := Key(pkg.id, d.name);
      if key !in infos {
        infos := infos[key := Info([], false, NoDirective)];
      }
      infos := infos[key := infos[key].(directive := d.directive)];
      var record := Record(key, pkg.hasTypes, file.aliases, d.body.value, d.directive);
      OneMoreRecord(records, record);
      records := records + [record];
    }
    assert file.decls[..|file.decls|] == file.decls;
  }

  lemma {:induction false} OneMoreRecord(records: seq<Record>, r: Record)
    ensures forall k :: Declared(records + [r], k) <==> Declared(records, k) || k == r.key
    ensures forall k :: DirectiveOf(records + [r], k) == if k == r.key then r.directive else DirectiveOf(records, k)
  {
    assert (records + [r])[..|records|] == records;
    assert forall x :: x in records + [r] <==> x in records || x == r;
  }

  // The infos after the first records have been scanned for calls.
  ghost predicate Scanned(records: seq<Record>, byImport: map<string, seq<string>>, before: Infos, after: Infos)
  {
    && after.Keys == before.Keys
    && (forall k :: k in after ==> after[k].directive == before[k].directive)
    && (forall a, b :: a in after ==> (b in after[a].calls <==> CallsKey(records, byImport, before.Keys, a, b)))
    && (forall a :: a in after ==> (after[a].hasEngineRun <==> RunsEngine(records, a)))
  }

  method BuildCalls(project: Project, infos0: Infos, records: seq<Record>, ghost byImport: map<string, seq<string>>) returns (infos: Infos)
    requires IsByImport(project, byImport) && forall k :: k in infos0 <==> Declared(records, k)
    requires forall k :: k in infos0 ==> infos0[k].calls == [] && !infos0[k].hasEngineRun
    ensures Scanned(records, byImport, infos0, infos)
  {
    var resolver := BuildByImport(project);
    ByImportUnique(project, resolver, byImport);
    infos := infos0;
    hide IsByImport, Scanned, Declared;
    if |infos| == 0 || |records| == 0 {
      NothingDeclared(records, byImport, infos);
      return;
    }
    infos := ScanAll(records, resolver, infos0);
  }

  method ScanAll(records: seq<Record>, byImport: map<string, seq<string>>, infos0: Infos) returns (infos: Infos)
    requires forall k :: k in infos0 <==> Declared(records, k)
    requires forall k :: k in infos0 ==> infos0[k].calls == [] && !infos0[k].hasEngineRun
    ensures Scanned(records, byImport, infos0, infos)
  {
    hide Scanned, Declared;
    infos := infos0;
    NothingScanned(byImport, infos0);
    for i := 0 to |records|
      invariant Scanned(records[..i], byImport, infos0, infos)
    {
      assert records[..i + 1] == records[..i] + [records[i]];
      IsDeclared(records, i);
      infos := ScanRecord(records[..i], records[i], byImport, infos0, infos);
    }
    assert records[..|records|] == records;
  }

  lemma IsDeclared(records: seq<Record>, i: nat)
    requires i < |records|
    ensures Declared(records, records[i].key)
  {
  }

  lemma NothingDeclared(records: seq<Record>, byImport: map<string, seq<string>>, infos: Infos)
    requires forall k :: k in infos <==> Declared(records, k)
    requires |infos| == 0 || |records| == 0
    ensures Scanned(records, byImport, infos, infos)
  {
  }

  method ScanRecord(ghost done: seq<Record>, rec: Record, byImport: map<string, seq<string>>, infos0: Infos, before: Infos) returns (infos: Infos)
    requires Scanned(done, byImport, infos0, before) && rec.key in infos0
    ensures Scanned(done + [rec], byImport, infos0, infos)
  {
    hide Scanned, BodyCalls, BodyRuns;
    ScannedKeys(done, byImport, infos0, before);
    var info := ScanBody(rec, byImport, infos0.Keys, before[rec.key]);
    ScannedStep(done, rec, byImport, infos0, before, info);
    infos := before[rec.key := info];
  }

  lemma ScannedKeys(records: seq<Record>, byImport: map<string, seq<string>>, before: Infos, now: Infos)
    requires Scanned(records, byImport, before, now)
    ensures now.Keys == before.Keys
  {
  }

  lemma NothingScanned(byImport: map<string, seq<string>>, infos: Infos)
    requires forall k :: k in infos ==> infos[k].calls == [] && !infos[k].hasEngineRun
    ensures Scanned([], byImport, infos, infos)
  {
  }

  lemma OneMoreScanned(records: seq<Record>, r: Record, byImport: map<string, seq<string>>, known: set<Key>)
    ensures forall a, b :: CallsKey(records + [r], byImport, known, a, b) <==>
      CallsKey(records, byImport, known, a, b) || (a == r.key && BodyCalls(r, r.body, byImport, known, b))
    ensures forall a :: RunsEngine(records + [r], a) <==> RunsEngine(records, a) || (a == r.key && BodyRuns(r, r.body))
  {
    hide BodyCalls, BodyRuns;
    assert forall x :: x in records + [r] <==> x in records || x == r;
  }

  lemma ScannedStep(records: seq<Record>, r: Record, byImport: map<string, seq<string>>, before: Infos, now: Infos, info: Info)
    requires Scanned(records, byImport, before, now) && r.key in now
    requires info.directive == now[r.key].directive
    requires forall b :: b in info.calls <==> b in now[r.key].calls || BodyCalls(r, r.body, byImport, before.Keys, b)
    requires info.hasEngineRun <==> now[r.key].hasEngineRun || BodyRuns(r, r.body)
    ensures Scanned(records + [r], byImport, before, now[r.key := info])
  {
    hide BodyCalls, BodyRuns, CallsKey, RunsEngine;
    OneMoreScanned(records, r, byImport, before.Keys);
  }

  // The ast.Inspect over one record's body.
  method ScanBody(rec: Record, byImport: map<string, seq<string>>, known: set<Key>, before: Info) returns (info: Info)
    ensures info.directive == before.directive
    ensures forall b :: b in info.calls <==> b in before.calls || BodyCalls(rec, rec.body, byImport, known, b)
    ensures info.hasEngineRun <==> before.hasEngineRun || BodyRuns(rec, rec.body)
  {
    info := before;
    var seenCalls: set<Key> := {};
    for i := 0 to |rec.body|
      invariant info.directive == before.directive
      invariant forall b :: b in seenCalls <==> BodyCalls(rec, rec.body[..i], byImport, known, b)
      invariant forall b :: b in info.calls <==> b in before.calls || b in seenCalls
      invariant info.hasEngineRun <==> before.hasEngineRun || BodyRuns(rec, rec.body[..i])
    {
      var call := rec.body[i];
      OneMoreCall(rec, rec.body[..i], call, byImport, known);
      assert rec.body[..i + 1] == rec.body[..i] + [call];
      if call.engineRun && rec.hasTypes {
        info := info.(hasEngineRun := true);
      }
      var callee := ResolveFunctionCall(rec.key.pkgID, call, rec.hasTypes, rec.aliases, byImport, Some(known));
      if callee.Some? {
        if callee.value !in seenCalls {
          seenCalls := seenCalls + {callee.value};
          info := info.(calls := info.calls + [callee.value]);
        }
      }
    }
    assert rec.body[..|rec.body|] == rec.body;
  }

  lemma OneMoreCall(r: Record, body: seq<Call>, c: Call, byImport: map<string, seq<string>>, known: set<Key>)
    ensures forall b :: BodyCalls(r, body + [c], byImport, known, b) <==>
      BodyCalls(r, body, byImport, known, b) || ResolveFunctionCall(r.key.pkgID, c, r.hasTypes, r.aliases, byImport, Some(known)) == Some(b)
    ensures BodyRuns(r, body + [c]) <==> BodyRuns(r, body) || (c.engineRun && r.hasTypes)
  {
    hide ResolveFunctionCall;
    assert forall x :: x in body + [c] <==> x in body || x == c;
  }

  // ---- reachesEngineRun

  function CallMap(infos: Infos): map<Key, seq<Key>>
  {
    map k | k in infos :: infos[k].calls
  }

  ghost predicate ReachesRun(infos: Infos, start: Key)
  {
    exists t :: t in infos && infos[t].hasEngineRun && Reaches(CallMap(infos), start, t)
  }

  // k is explored: it does not run the engine and all its callees have been seen.
  ghost predicate Quiet(infos: Infos, seen: set<Key>, k: Key)
  {
    k in infos ==> !infos[k].hasEngineRun && forall b :: b in infos[k].calls ==> b in seen
  }

  // The shared "seen" set is passed along; the search stops at the first hit.
  method Visit(key: Key, infos: Infos, seen0: set<Key>) returns (found: bool, seen: set<Key>)
    ensures seen0 <= seen && key in seen
    ensures found ==> ReachesRun(infos, key)
    ensures !found ==> forall k :: k in seen && k !in seen0 ==> Quiet(infos, seen, k)
    decreases infos.Keys - seen0
  {
    hide Reaches;
    seen := seen0;
    if key in seen {
      return false, seen;
    }
    seen := seen + {key};
    if key !in infos {
      return false, seen;
    }
    if infos[key].hasEngineRun {
      ReachesSelf(CallMap(infos), key);
      return true, seen;
    }
    var calls := infos[key].calls;
    assert infos.Keys - seen < infos.Keys - seen0;
    for i := 0 to |calls|
      invariant seen0 + {key} <= seen
      invariant forall j :: 0 <= j < i ==> calls[j] in seen
      invariant forall k :: k in seen && k !in seen0 && k != key ==> Quiet(infos, seen, k)
    {
      var hit;
      ghost var before := seen;
      hit, seen := Visit(calls[i], infos, seen);
      if hit {
        CalleeReaches(infos, key, calls[i]);
        return true, seen;
      }
      assert forall k :: k in before && Quiet(infos, before, k) ==> Quiet(infos, seen, k);
    }
    found := false;
  }

  lemma CalleeReaches(infos: Infos, a: Key, b: Key)
    requires a in infos && b in infos[a].calls && ReachesRun(infos, b)
    ensures ReachesRun(infos, a)
  {
    var g := CallMap(infos);
    var t :| t in infos && infos[t].hasEngineRun && Reaches(g, b, t);
    var p :| IsPath(g, p, b, t);
    assert ([a] + p)[1..] == p;
    assert IsPath(g, [a] + p, a, t);
  }

  /** Exact on any finite graph, cycles included. */
  method ReachesEngineRun(start: Key, infos: Infos) returns (r: bool)
    ensures r <==> ReachesRun(infos, start)
  {
    var seen;
    r, seen := Visit(start, infos, {});
    if !r {
      NoRunInside(infos, seen, start);
    }
  }

  lemma NoRunInside(infos: Infos, seen: set<Key>, start: Key)
    requires start in seen && forall k :: k in seen ==> Quiet(infos, seen, k)
    ensures !ReachesRun(infos, start)
  {
    var g := CallMap(infos);
    assert ClosedUnder(g, seen) by {
      forall a, b | a in seen && Edge(g, a, b) ensures b in seen {
        assert Quiet(infos, seen, a);
      }
    }
    forall t | Reaches(g, start, t)
      ensures Quiet(infos, seen, t)
    {
      var p :| IsPath(g, p, start, t);
      PathStaysInside(g, seen, p, start, t);
    }
  }

  // ---- DiscoverDetailed

  datatype Reason = AutoRunReachable | DirectiveExclude
  datatype ExcludedTest = ExcludedTest(ref: TestRef, reason: Reason)

  ghost predicate IsExcluded(infos: Infos, k: Key)
  {
    if k in infos && infos[k].directive != NoDirective then infos[k].directive == Exclude else ReachesRun(infos, k)
  }

  function Refs(excluded: seq<ExcludedTest>): (r: seq<TestRef>)
    ensures |r| == |excluded|
  {
    seq(|excluded|, i requires 0 <= i < |excluded| => excluded[i].ref)
  }

  /** The split keeps the order of the discovered tests. A test is excluded exactly when its
      directive says so, or when it has no directive and a chain of resolved calls leads from
      it to a function that calls (*Engine).Run. */
  method Split(tests: seq<TestRef>, infos: Infos) returns (included: seq<TestRef>, excluded: seq<ExcludedTest>)
    ensures included == Keep(tests, k => !IsExcluded(infos, k))
    ensures Refs(excluded) == Keep(tests, k => IsExcluded(infos, k))
    ensures forall e :: e in excluded ==> (e.reason == DirectiveExclude <==> KeyOf(e.ref) in infos && infos[KeyOf(e.ref)].directive == Exclude)
  {
    included, excluded := [], [];
    ghost var out := (k: Key) => IsExcluded(infos, k);
    ghost var keep := (k: Key) => !IsExcluded(infos, k);
    for i := 0 to |tests|
      invariant included == Keep(tests[..i], keep)
      invariant Refs(excluded) == Keep(tests[..i], out)
      invariant forall e :: e in excluded ==> (e.reason == DirectiveExclude <==> KeyOf(e.ref) in infos && infos[KeyOf(e.ref)].directive == Exclude)
    {
      var test, key := tests[i], KeyOf(tests[i]);
      assert tests[..i + 1][..i] == tests[..i];
      var directive := if key in infos then infos[key].directive else NoDirective;
      match directive {
        case Include =>
          included := included + [test];
        case Exclude =>
          excluded := excluded + [ExcludedTest(test, DirectiveExclude)];
        case NoDirective =>
          var reaches := ReachesEngineRun(key, infos);
          if reaches {
            excluded := excluded + [ExcludedTest(test, AutoRunReachable)];
          } else {
            included := included + [test];
          }
      }
    }
    assert tests[..|tests|] == tests;
  }

  function TestOf(pkg: Package, file: File, d: FuncDecl): (r: seq<TestRef>)
    ensures |r| <= 1
  {
    if d.isTest then [TestRef(pkg.id, pkg.importPath, d.name)] else []
  }

  function Tests(project: Project): seq<TestRef>
  {
    Gather(project, TestOf)
  }

  method CollectTests(project: Project) returns (tests: seq<TestRef>)
    ensures tests == Tests(project)
  {
    tests := [];
    for i := 0 to |project|
      invariant tests == Tests(project[..i])
    {
      hide GatherFiles;
      tests := CollectFileTests(project[i], tests);
      assert project[..i + 1][..i] == project[..i];
    }
    assert project[..|project|] == project;
  }

  method CollectFileTests(pkg: Package, tests0: seq<TestRef>) returns (tests: seq<TestRef>)
    ensures tests == tests0 + GatherFiles(pkg, pkg.files, TestOf)
  {
    tests := tests0;
    for j := 0 to |pkg.files|
      invariant tests == tests0 + GatherFiles(pkg, pkg.files[..j], TestOf)
    {
      hide GatherDecls;
      tests := CollectDeclTests(pkg, pkg.files[j], pkg.files[j].decls, tests);
      assert pkg.files[..j + 1][..j] == pkg.files[..j];
    }
    assert pkg.files[..|pkg.files|] == pkg.files;
  }

  method CollectDeclTests(pkg: Package, file: File, decls: seq<FuncDecl>, tests0: seq<TestRef>) returns (tests: seq<TestRef>)
    ensures tests == tests0 + GatherDecls(pkg, file, decls, TestOf)
  {
    tests := tests0;
    for k := 0 to |decls|
      invariant tests == tests0 + GatherDecls(pkg, file, decls[..k], TestOf)
    {
      assert decls[..k + 1][..k] == decls[..k];
      if decls[k].isTest {
        tests := tests + [TestRef(pkg.id, pkg.importPath, decls[k].name)];
      }
    }
    assert decls[..|decls|] == decls;
  }

  /** DiscoverDetailed on a whole project: the tests split, in order, into those that take
      part and those left out, by their last directive or by reaching (*Engine).Run. */
  method DiscoverDetailed(project: Project, ghost byImport: map<string, seq<string>>)
    returns (included: seq<TestRef>, excluded: seq<ExcludedTest>)
    requires IsByImport(project, byImport)
    ensures included == Keep(Tests(project), k => !LeftOut(Records(project), byImport, k))
    ensures Refs(excluded) == Keep(Tests(project), k => LeftOut(Records(project), byImport, k))
    ensures |included| + |excluded| == |Tests(project)|
    ensures forall e :: e in excluded ==> (e.reason == DirectiveExclude <==> DirectiveOf(Records(project), KeyOf(e.ref)) == Exclude)
  {
    hide Reaches, ReachesRun, LeftOut, IsExcluded, Declared, DirectiveOf;
    var collected, records := CollectFunctions(project);
    var tests := CollectTests(project);
    var infos := BuildCalls(project, collected, records, byImport);
    included, excluded := Split(tests, infos);
    InfosAgree(records, byImport, collected, infos);
    KeepSame(tests, k => IsExcluded(infos, k), k => LeftOut(records, byImport, k));
    KeepSame(tests, k => !IsExcluded(infos, k), k => !LeftOut(records, byImport, k));
    KeepSplits(tests, k => IsExcluded(infos, k), k => !IsExcluded(infos, k));
  }

  lemma {:induction false} InfosAgree(records: seq<Record>, byImport: map<string, seq<string>>, collected: Infos, infos: Infos)
    requires forall k :: k in collected <==> Declared(records, k)
    requires forall k :: k in collected ==> collected[k].directive == DirectiveOf(records, k)
    requires Scanned(records, byImport, collected, infos)
    ensures forall k :: IsExcluded(infos, k) <==> LeftOut(records, byImport, k)
    ensures forall k :: (k in infos && infos[k].directive == Exclude) <==> DirectiveOf(records, k) == Exclude
  {
    hide Reaches, CallsKey;
    var g, h := CallMap(infos), CallGraph(records, byImport);
    assert collected.Keys == Keys(records) by {
      forall k ensures k in collected.Keys <==> k in Keys(records) {
        assert Declared(records, k) <==> k in Keys(records);
      }
    }
    forall a, b ensures Edge(g, a, b) <==> Edge(h, a, b) {
      CalleesMember(records, byImport, Keys(records), a, b);
    }
    forall k ensures IsExcluded(infos, k) <==> LeftOut(records, byImport, k) {
      UndeclaredHasNoDirective(records, k);
      forall t ensures Reaches(g, k, t) <==> Reaches(h, k, t) { SameReach(g, h, k, t); }
      assert forall t :: RunsEngine(records, t) ==> Declared(records, t);
    }
    forall k ensures (k in infos && infos[k].directive == Exclude) <==> DirectiveOf(records, k) == Exclude {
      UndeclaredHasNoDirective(records, k);
    }
  }

  lemma {:induction false} UndeclaredHasNoDirective(records: seq<Record>, k: Key)
    ensures !Declared(records, k) ==> DirectiveOf(records, k) == NoDirective
  {
    if records != [] {
      UndeclaredHasNoDirective(records[..|records| - 1], k);
      assert forall r :: r in records[..|records| - 1] ==> r in records;
      assert records[|records| - 1] in records;
    }
  }

  lemma {:induction false} KeepSame(tests: seq<TestRef>, p: Key -> bool, q: Key -> bool)
    requires forall k :: p(k) <==> q(k)
    ensures Keep(tests, p) == Keep(tests, q)
  {
    if tests != [] { KeepSame(tests[..|tests| - 1], p, q); }
  }

  lemma {:induction false} KeepSplits(tests: seq<TestRef>, p: Key -> bool, q: Key -> bool)
    requires forall k :: p(k) <==> !q(k)
    ensures |Keep(tests, p)| + |Keep(tests, q)| == |tests|
  {
    if tests != [] { KeepSplits(tests[..|tests| - 1], p, q); }
  }
}
