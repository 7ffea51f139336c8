/** The loaded project as test selection sees it, and the call resolution of
    internal/selection/resolve.go. */
module Resolve {
  import opened Order
  import opened Wrappers

  datatype Key = Key(pkgID: string, name: string)

  // What is called: a plain name, a selection from a plain name (the alias), or anything else.
  datatype Callee = Ident(name: string) | Selector(alias: Option<string>, sel: string) | OtherCallee

  // "typed" is the package path and name that the type information gives for a callee that
  // is a package-level function; "engineRun" marks calls of (*Engine).Run.
  datatype Call = Call(callee: Callee, typed: Option<(string, string)>, engineRun: bool)
  datatype Directive = NoDirective | Include | Exclude
  datatype FuncDecl = FuncDecl(name: string, body: Option<seq<Call>>, directive: Directive, isTest: bool)
  datatype File = File(aliases: map<string, string>, decls: seq<FuncDecl>)
  datatype Package = Package(id: string, importPath: string, files: seq<File>, imports: seq<string>, hasTypes: bool)
  type Project = seq<Package>

  /** slices.Compact on a sorted list */
  function Compact(s: seq<string>): seq<string>
  {
    if |s| < 2 then s
    else if s[0] == s[1] then Compact(s[1..])
    else [s[0]] + Compact(s[1..])
  }

  lemma {:induction false} CompactSorted(s: seq<string>)
    requires Sorted(s)
    ensures StrictlySorted(Compact(s)) && forall x :: x in Compact(s) <==> x in s
    ensures s != [] ==> Compact(s) != [] && Compact(s)[0] == s[0]
  {
    hide Leq;
    if |s| >= 2 {
      var r := Compact(s[1..]);
      CompactSorted(s[1..]);
      assert s == [s[0]] + s[1..];
      if s[0] != s[1] {
        forall j | 0 <= j < |r| ensures Less(s[0], r[j]) {
          assert r[j] in s[1..];
          var k :| 0 <= k < |s[1..]| && s[1..][k] == r[j];
          LeqTotal(s[0], s[1]);
          LeqTotal(s[1], s[k + 1]);
          assert Leq(s[0], s[k + 1]) && Leq(s[1], s[k + 1]);
        }
      }
    }
  }

  /** import path -> IDs of the packages that have it, sorted and without duplicates. */
  ghost predicate IsByImport(project: Project, byImport: map<string, seq<string>>)
  {
    && (forall path :: path in byImport ==> byImport[path] != [] && StrictlySorted(byImport[path]))
    && (forall path, id :: path in byImport && id in byImport[path] <==> HasPackage(project, id, path) && path != "" && id != "")
  }

  ghost predicate HasPackage(project: Project, id: string, path: string)
  {
    exists k :: 0 <= k < |project| && project[k].id == id && project[k].importPath == path
  }

  lemma ByImportUnique(project: Project, a: map<string, seq<string>>, b: map<string, seq<string>>)
    requires IsByImport(project, a) && IsByImport(project, b)
    ensures a == b
  {
    forall path
      ensures path in a <==> path in b
      ensures path in a && path in b ==> a[path] == b[path]
    {
      if path in a { assert a[path][0] in a[path]; }
      if path in b { assert b[path][0] in b[path]; }
      if path in a && path in b {
        assert forall id :: id in a[path] <==> id in b[path];
        StrictlySortedUnique(a[path], b[path]);
      }
    }
  }

  lemma {:induction false} SortCompactSame(ids: seq<string>)
    requires StrictlySorted(ids)
    ensures Compact(Sort(ids)) == ids
  {
    hide Leq;
    var sorted := Sort(ids);
    CompactSorted(sorted);
    assert forall x :: x in sorted <==> x in multiset(sorted);
    assert forall x :: x in ids <==> x in multiset(ids);
    StrictlySortedUnique(Compact(sorted), ids);
  }

  predicate KeyExists(key: Key, known: Option<set<Key>>)
  {
    known.None? || key in known.value
  }

  function FirstExisting(ids: seq<string>, name: string, known: Option<set<Key>>): Option<Key>
  {
    if ids == [] then None
    else if KeyExists(Key(ids[0], name), known) then Some(Key(ids[0], name))
    else FirstExisting(ids[1..], name, known)
  }

  // The current package first, then the candidates in increasing order.
  function Lookup(path: string, name: string, current: string, byImport: map<string, seq<string>>, known: Option<set<Key>>): Option<Key>
  {
    var ids := Compact(Sort(if path in byImport then byImport[path] else []));
    if current in ids && KeyExists(Key(current, name), known) then Some(Key(current, name))
    else FirstExisting(ids, name, known)
  }

  // lookupFunctionKey sorts and compacts its own copy of the list.
  method LookupFunctionKey(path: string, name: string, current: string, byImport: map<string, seq<string>>, known: Option<set<Key>>)
    returns (r: Option<Key>)
    ensures r == Lookup(path, name, current, byImport, known)
  {
    hide Leq, Sort, Compact, KeyExists, Sorted;
    var ids := if path in byImport then byImport[path] else [];
    NothingToSort();
    if |ids| == 0 {
      return None;
    }
    var candidates := Compact(Sort(ids));
    for i := 0 to |candidates|
      invariant forall k :: 0 <= k < i ==> candidates[k] != current || !KeyExists(Key(current, name), known)
    {
      if candidates[i] != current {
        continue;
      }
      if KeyExists(Key(candidates[i], name), known) {
        return Some(Key(candidates[i], name));
      }
    }
    for i := 0 to |candidates|
      invariant FirstExisting(candidates, name, known) == FirstExisting(candidates[i..], name, known)
    {
      if KeyExists(Key(candidates[i], name), known) {
        return Some(Key(candidates[i], name));
      }
    }
    r := None;
  }

  lemma NothingToSort()
    ensures Compact(Sort([])) == []
  {
  }

  /** A key is found exactly when some candidate package has it; the current package wins,
      otherwise the least package ID does. */
  lemma LookupFinds(project: Project, path: string, name: string, current: string, byImport: map<string, seq<string>>, known: Option<set<Key>>)
    requires IsByImport(project, byImport)
    ensures var r := Lookup(path, name, current, byImport, known);
      && (r.Some? <==> exists id :: Candidate(project, path, name, known, id))
      && (r.Some? ==> r.value.name == name && Candidate(project, path, name, known, r.value.pkgID))
      && (Candidate(project, path, name, known, current) ==> r == Some(Key(current, name)))
      && (r.Some? && r.value.pkgID != current ==>
            !Candidate(project, path, name, known, current)
            && forall id :: Candidate(project, path, name, known, id) ==> Leq(r.value.pkgID, id))
  {
    hide Leq, Sort, Compact, StrictlySorted;
    var ids := if path in byImport then byImport[path] else [];
    NoneSorted();
    SortCompactSame(ids);
    assert forall id :: id in ids <==> HasPackage(project, id, path) && path != "" && id != "";
    FirstIsLeast(ids, name, known);
    assert forall id :: Candidate(project, path, name, known, id) <==> id in ids && KeyExists(Key(id, name), known);
  }

  lemma NoneSorted()
    ensures StrictlySorted([])
  {
  }

  ghost predicate Candidate(project: Project, path: string, name: string, known: Option<set<Key>>, id: string)
  {
    HasPackage(project, id, path) && path != "" && id != "" && KeyExists(Key(id, name), known)
  }

  lemma {:induction false} FirstIsLeast(ids: seq<string>, name: string, known: Option<set<Key>>)
    requires StrictlySorted(ids)
    ensures var r := FirstExisting(ids, name, known);
      && (r.None? ==> forall id :: id in ids ==> !KeyExists(Key(id, name), known))
      && (r.Some? ==> r.value.name == name && r.value.pkgID in ids && KeyExists(r.value, known))
      && (r.Some? ==> forall id :: id in ids && KeyExists(Key(id, name), known) ==> Leq(r.value.pkgID, id))
  {
    hide Leq;
    if ids != [] {
      assert ids == [ids[0]] + ids[1..];
      FirstIsLeast(ids[1..], name, known);
      LeqTotal(ids[0], ids[0]);
    }
  }

  function ResolveByTypes(current: string, call: Call, hasTypes: bool, byImport: map<string, seq<string>>, known: Option<set<Key>>): Option<Key>
  {
    if !hasTypes then None
    else if call.callee.OtherCallee? || call.typed.None? then None
    else Lookup(call.typed.value.0, call.typed.value.1, current, byImport, known)
  }

  function ResolveBySyntax(current: string, call: Call, aliases: map<string, string>, byImport: map<string, seq<string>>, known: Option<set<Key>>): Option<Key>
  {
    match call.callee
    case Ident(name) =>
      if KeyExists(Key(current, name), known) then Some(Key(current, name)) else None
    case Selector(alias, sel) =>
      if alias.None? || alias.value !in aliases then None
      else Lookup(aliases[alias.value], sel, current, byImport, known)
    case OtherCallee => None
  }

  function ResolveFunctionCall(current: string, call: Call, hasTypes: bool, aliases: map<string, string>,
                               byImport: map<string, seq<string>>, known: Option<set<Key>>): Option<Key>
  {
    var byTypes := ResolveByTypes(current, call, hasTypes, byImport, known);
    if byTypes.Some? then byTypes else ResolveBySyntax(current, call, aliases, byImport, known)
  }

  /** BuildByImport */
  method BuildByImport(project: Project) returns (byImport: map<string, seq<string>>)
    ensures IsByImport(project, byImport)
  {
    var lists: map<string, seq<string>> := map[];
    for i := 0 to |project|
      invariant forall path :: path in lists ==> lists[path] != []
      invariant forall path, id :: path in lists && id in lists[path] <==> HasPackage(project[..i], id, path) && path != "" && id != ""
    {
      var pkg := project[i];
      assert project[..i + 1] == project[..i] + [pkg];
      HasOneMore(project[..i], pkg);
      if pkg.importPath == "" || pkg.id == "" {
        continue;
      }
      lists := lists[pkg.importPath := (if pkg.importPath in lists then lists[pkg.importPath] else []) + [pkg.id]];
    }
    assert project[..|project|] == project;
    byImport := map path | path in lists :: Compact(Sort(lists[path]));
    forall path | path in lists
      ensures StrictlySorted(byImport[path]) && byImport[path] != [] && forall id :: id in byImport[path] <==> id in lists[path]
    {
      var s := Sort(lists[path]);
      CompactSorted(s);
      assert |s| == |multiset(s)| == |multiset(lists[path])|;
      assert forall id :: id in s <==> id in multiset(s);
      assert forall id :: id in lists[path] <==> id in multiset(lists[path]);
    }
  }

  lemma HasOneMore(project: Project, pkg: Package)
    ensures forall id, path :: HasPackage(project + [pkg], id, path) <==> HasPackage(project, id, path) || (pkg.id == id && pkg.importPath == path)
  {
    forall id, path
      ensures HasPackage(project + [pkg], id, path) <==> HasPackage(project, id, path) || (pkg.id == id && pkg.importPath == path)
    {
      assert (project + [pkg])[|project|] == pkg;
      assert forall k :: 0 <= k < |project| ==> (project + [pkg])[k] == project[k];
    }
  }
}
