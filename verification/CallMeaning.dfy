/** What the edges of the AST backend's call graph are, on the project's own declarations. */
module CallMeaning {
  import opened Graph
  import opened Resolve
  import opened Select
  import opened Declarations
  import opened Wrappers

  // ---- the files of the project, in order

  predicate FileBefore(a: (nat, nat), b: (nat, nat))
  {
    a.0 < b.0 || (a.0 == b.0 && a.1 < b.1)
  }

  ghost predicate FilesListed(project: Project, files: seq<(string, File)>, at: seq<(nat, nat)>)
  {
    && |at| == |files|
    && (forall k :: 0 <= k < |at| ==> IsFileAt(project, files[k], at[k]))
    && (forall k, l :: 0 <= k < l < |at| ==> FileBefore(at[k], at[l]))
    && forall i: nat, j: nat :: i < |project| && j < |project[i].files| ==> (i, j) in at
  }

  // Entry k of the list is the file at its place.
  predicate IsFileAt(project: Project, file: (string, File), at: (nat, nat))
  {
    at.0 < |project| && at.1 < |project[at.0].files| && file == (project[at.0].id, project[at.0].files[at.1])
  }

  lemma {:induction false} FilesInOrder(project: Project) returns (at: seq<(nat, nat)>)
    ensures FilesListed(project, Files(project), at)
  {
    at := [];
    if project != [] {
      hide Files, FilesListed;
      var m := |project| - 1;
      var front := FilesInOrder(project[..m]);
      at := front + seq(|project[m].files|, j => (m, j));
      MoreFiles(project[..m], project[m], Files(project[..m]), front);
      assert project == project[..m] + [project[m]];
      FilesOfLast(project[..m], project[m]);
    }
  }

  lemma {:induction false} FilesOfLast(project: Project, pkg: Package)
    ensures Files(project + [pkg]) == Files(project) + PackageFiles(pkg)
  {
    assert (project + [pkg])[..|project|] == project;
  }

  lemma MoreFiles(project: Project, pkg: Package, files: seq<(string, File)>, at: seq<(nat, nat)>)
    requires FilesListed(project, files, at)
    ensures FilesListed(project + [pkg], files + PackageFiles(pkg), at + seq(|pkg.files|, j => (|project|, j)))
  {
    var project' := project + [pkg];
    var last: seq<(nat, nat)> := seq(|pkg.files|, j => (|project|, j));
    forall k | 0 <= k < |at + last|
      ensures IsFileAt(project', (files + PackageFiles(pkg))[k], (at + last)[k])
    {
      if k < |at| { assert IsFileAt(project, files[k], at[k]); }
    }
    hide IsFileAt;
    forall i: nat, j: nat | i < |project'| && j < |project'[i].files|
      ensures (i, j) in at + last
    {
      if i < |project| {
        assert (i, j) in at;
      } else {
        assert last[j] == (i, j);
      }
    }
    assert forall k :: 0 <= k < |at| ==> IsFileAt(project, files[k], at[k]);
    forall k, l | 0 <= k < l < |at + last|
      ensures FileBefore((at + last)[k], (at + last)[l])
    {
      if k < |at| <= l { PlaceInside(project, files[k], at[k]); }
    }
  }

  lemma PlaceInside(project: Project, file: (string, File), at: (nat, nat))
    requires IsFileAt(project, file, at)
    ensures at.0 < |project|
  {
  }

  // ---- bodies and aliases, by file

  predicate BodyAt(files: seq<(string, File)>, f: nat, d: nat, k: Key)
  {
    && f < |files| && d < |files[f].1.decls|
    && files[f].0 == k.pkgID && files[f].1.decls[d].name == k.name && files[f].1.decls[d].body.Some?
  }

  lemma {:induction false} DeclBody(id: string, decls: seq<FuncDecl>, k: Key) returns (d: nat)
    ensures k in DeclBodies(id, decls) <==> exists e :: 0 <= e < |decls| && id == k.pkgID && decls[e].name == k.name && decls[e].body.Some?
    ensures k in DeclBodies(id, decls) ==>
      && d < |decls| && id == k.pkgID && decls[d].name == k.name && decls[d].body == Some(DeclBodies(id, decls)[k])
      && forall e :: d < e < |decls| && decls[e].name == k.name ==> decls[e].body.None?
  {
    d := 0;
    if decls != [] {
      var m := |decls| - 1;
      d := DeclBody(id, decls[..m], k);
      if id == k.pkgID && decls[m].name == k.name && decls[m].body.Some? {
        d := m;
      } else {
        assert forall e :: 0 <= e < m ==> decls[..m][e] == decls[e];
      }
    }
  }

  ghost predicate IsLastBody(files: seq<(string, File)>, f: nat, d: nat, k: Key)
  {
    BodyAt(files, f, d, k) && forall g: nat, e: nat :: BodyAt(files, g, e, k) ==> g < f || (g == f && e <= d)
  }

  lemma {:induction false} LastBody(files: seq<(string, File)>, k: Key) returns (f: nat, d: nat)
    ensures k in Bodies(files) ==> IsLastBody(files, f, d, k) && files[f].1.decls[d].body.value == Bodies(files)[k]
    ensures k !in Bodies(files) ==> forall g: nat, e: nat :: !BodyAt(files, g, e, k)
  {
    f, d := 0, 0;
    if files != [] {
      var m := |files| - 1;
      f, d := LastBody(files[..m], k);
      var e := DeclBody(files[m].0, files[m].1.decls, k);
      FrontBodies(files, k);
      hide DeclBodies;
      if k in DeclBodies(files[m].0, files[m].1.decls) {
        f, d := m, e;
        assert BodyAt(files, m, e, k);
      } else if k in Bodies(files[..m]) {
        assert BodyAt(files, f, d, k);
      }
    }
  }

  lemma FrontBodies(files: seq<(string, File)>, k: Key)
    requires files != []
    ensures forall g: nat, e: nat :: g < |files| - 1 ==> (BodyAt(files[..|files| - 1], g, e, k) <==> BodyAt(files, g, e, k))
  {
    forall g: nat, e: nat | g < |files| - 1
      ensures BodyAt(files[..|files| - 1], g, e, k) <==> BodyAt(files, g, e, k)
    {
      assert files[..|files| - 1][g] == files[g];
    }
  }

  predicate AliasIn(files: seq<(string, File)>, f: nat, id: string, x: string)
  {
    f < |files| && files[f].0 == id && x in files[f].1.aliases
  }

  lemma {:induction false} LastAliasFile(files: seq<(string, File)>, id: string, x: string) returns (f: nat)
    ensures x in Aliases(files, id) ==>
      AliasIn(files, f, id, x) && files[f].1.aliases[x] == Aliases(files, id)[x] && forall g: nat :: AliasIn(files, g, id, x) ==> g <= f
    ensures x !in Aliases(files, id) ==> forall g: nat :: !AliasIn(files, g, id, x)
  {
    f := 0;
    if files != [] {
      var m := |files| - 1;
      f := LastAliasFile(files[..m], id, x);
      forall g: nat | g < m
        ensures AliasIn(files[..m], g, id, x) <==> AliasIn(files, g, id, x)
      {
        assert files[..m][g] == files[g];
      }
      if files[m].0 == id && x in files[m].1.aliases {
        f := m;
      } else {
        assert forall g: nat :: AliasIn(files, g, id, x) ==> g < m;
      }
    }
  }

  // ---- the same by position in the project

  lemma {:induction false} BodyHasPos(project: Project, at: seq<(nat, nat)>, f: nat, d: nat, k: Key)
    requires FilesListed(project, Files(project), at) && BodyAt(Files(project), f, d, k)
    ensures f < |at| && Declares(project, Pos(at[f].0, at[f].1, d), k)
    ensures DeclAt(project, Pos(at[f].0, at[f].1, d)) == Files(project)[f].1.decls[d]
  {
    hide Files;
    assert IsFileAt(project, Files(project)[f], at[f]);
  }

  lemma PosHasBody(project: Project, at: seq<(nat, nat)>, q: Pos, k: Key) returns (f: nat)
    requires FilesListed(project, Files(project), at) && Declares(project, q, k)
    ensures f < |at| && at[f] == (q.pkg, q.file) && BodyAt(Files(project), f, q.decl, k)
  {
    hide Files;
    f :| 0 <= f < |at| && at[f] == (q.pkg, q.file);
    assert IsFileAt(project, Files(project)[f], at[f]);
  }

  /** The body kept for a key is that of the last declaration with a body under it. */
  lemma BodyIsLast(project: Project, k: Key) returns (p: Pos)
    ensures k in Bodies(Files(project)) ==> LastUnder(project, p, k) && DeclAt(project, p).body.value == Bodies(Files(project))[k]
    ensures k !in Bodies(Files(project)) ==> forall q :: !Declares(project, q, k)
  {
    hide Files, Bodies, FilesListed, BodyAt, Declares;
    var at := FilesInOrder(project);
    var f, d := LastBody(Files(project), k);
    p := Pos(0, 0, 0);
    if k in Bodies(Files(project)) {
      BodyHasPos(project, at, f, d, k);
      p := Pos(at[f].0, at[f].1, d);
    }
    forall q | Declares(project, q, k)
      ensures k in Bodies(Files(project)) && !PosBefore(p, q)
    {
      var g := PosHasBody(project, at, q, k);
      if g < f { FilesApart(project, Files(project), at, g, f); }
    }
  }

  lemma FilesApart(project: Project, files: seq<(string, File)>, at: seq<(nat, nat)>, k: nat, l: nat)
    requires FilesListed(project, files, at) && k < l < |at|
    ensures FileBefore(at[k], at[l])
  {
  }

  /** The path kept for an alias is that of the last file of the package ID that has it. */
  lemma {:induction false} AliasIsLast(project: Project, id: string, x: string, t: string)
    ensures x in Aliases(Files(project), id) && Aliases(Files(project), id)[x] == t <==> AliasFor(project, id, x, t)
  {
    hide Files, Aliases, FilesListed;
    var at := FilesInOrder(project);
    var f := LastAliasFile(Files(project), id, x);
    if x in Aliases(Files(project), id) {
      AliasPlace(project, at, f, id, x);
      forall i: nat, j: nat | HasAlias(project, i, j, id, x)
        ensures i < at[f].0 || (i == at[f].0 && j <= at[f].1)
      {
        var g := AliasFile(project, at, i, j, id, x);
        if g < f { FilesApart(project, Files(project), at, g, f); }
      }
      assert LastAlias(project, at[f].0, at[f].1, id, x);
    } else {
      forall i: nat, j: nat
        ensures !HasAlias(project, i, j, id, x)
      {
        if HasAlias(project, i, j, id, x) {
          var g := AliasFile(project, at, i, j, id, x);
        }
      }
    }
  }

  lemma AliasFile(project: Project, at: seq<(nat, nat)>, i: nat, j: nat, id: string, x: string) returns (f: nat)
    requires FilesListed(project, Files(project), at) && HasAlias(project, i, j, id, x)
    ensures f < |at| && at[f] == (i, j) && AliasIn(Files(project), f, id, x)
  {
    hide Files;
    f :| 0 <= f < |at| && at[f] == (i, j);
    assert IsFileAt(project, Files(project)[f], at[f]);
  }

  lemma {:induction false} AliasPlace(project: Project, at: seq<(nat, nat)>, f: nat, id: string, x: string)
    requires FilesListed(project, Files(project), at) && AliasIn(Files(project), f, id, x)
    ensures f < |at| && HasAlias(project, at[f].0, at[f].1, id, x)
    ensures project[at[f].0].files[at[f].1].aliases[x] == Files(project)[f].1.aliases[x]
  {
    hide Files;
    assert IsFileAt(project, Files(project)[f], at[f]);
  }

  // ---- the edges

  // A call in the body of a means b: a plain name in a's own package, or a selection through
  // an import alias of a's package ID.
  ghost predicate CallTarget(project: Project, a: Key, c: Call, b: Key)
  {
    match c.callee
    case Ident(name) => b == Key(a.pkgID, name)
    case Selector(alias, sel) => alias.Some? && exists t :: AliasFor(project, a.pkgID, alias.value, t) && Chosen(project, t, sel, a.pkgID, None, b)
    case OtherCallee => false
  }

  ghost predicate Calls(project: Project, a: Key, b: Key)
  {
    exists p :: LastUnder(project, p, a) && BodyCallsKey(project, DeclAt(project, p).body.value, a, b)
  }

  ghost predicate BodyCallsKey(project: Project, body: seq<Call>, a: Key, b: Key)
  {
    exists c :: c in body && CallTarget(project, a, c, b)
  }

  lemma {:induction false} CallTargetResolves(project: Project, byImport: map<string, seq<string>>, a: Key, c: Call, b: Key)
    requires IsByImport(project, byImport)
    ensures ResolveFunctionCall(a.pkgID, c, false, Aliases(Files(project), a.pkgID), byImport, None) == Some(b) <==> CallTarget(project, a, c, b)
  {
    hide ResolveFunctionCall, Chosen, Aliases, Files, AliasFor, IsByImport;
    CallResolves(project, a.pkgID, c, false, Aliases(Files(project), a.pkgID), byImport, None, b);
    if c.callee.Selector? && c.callee.alias.Some? {
      var x := c.callee.alias.value;
      forall t
        ensures x in Aliases(Files(project), a.pkgID) && Aliases(Files(project), a.pkgID)[x] == t <==> AliasFor(project, a.pkgID, x, t)
      {
        AliasIsLast(project, a.pkgID, x, t);
      }
    }
  }

  lemma {:induction false} CalleesResolve(calls: seq<Call>, current: string, aliases: map<string, string>, byImport: map<string, seq<string>>, b: Key)
    ensures b in Callees(calls, current, aliases, byImport) <==>
      exists c :: c in calls && ResolveFunctionCall(current, c, false, aliases, byImport, None) == Some(b)
  {
    hide ResolveFunctionCall;
    if calls != [] {
      var m := |calls| - 1;
      CalleesResolve(calls[..m], current, aliases, byImport, b);
      assert calls == calls[..m] + [calls[m]];
    }
  }

  /** The call graph of the AST backend: an edge leads from a to b if and only if the last
      declaration with a body under a has a call that means b. */
  lemma EdgeMeans(project: Project, byImport: map<string, seq<string>>, a: Key, b: Key)
    requires IsByImport(project, byImport)
    ensures Edge(CallGraph(project, byImport), a, b) <==> Calls(project, a, b)
  {
    hide IsByImport, ResolveFunctionCall, Aliases, Bodies, Files, CallTarget, Callees;
    var p := BodyIsLast(project, a);
    if a in Bodies(Files(project)) {
      var body := Bodies(Files(project))[a];
      CalleesResolve(body, a.pkgID, Aliases(Files(project), a.pkgID), byImport, b);
      forall c
        ensures ResolveFunctionCall(a.pkgID, c, false, Aliases(Files(project), a.pkgID), byImport, None) == Some(b) <==> CallTarget(project, a, c, b)
      {
        CallTargetResolves(project, byImport, a, c, b);
      }
      forall q | LastUnder(project, q, a)
        ensures q == p
      {
        OneLast(project, p, q, a);
      }
    }
  }

  /** buildReverseCallers lists, under each key, exactly the keys that call it. */
  lemma ReverseMeans(project: Project, byImport: map<string, seq<string>>, reverse: map<Key, seq<Key>>, a: Key, b: Key)
    requires IsByImport(project, byImport) && Transposed(CallGraph(project, byImport), reverse)
    ensures Edge(reverse, b, a) <==> Calls(project, a, b)
  {
    hide IsByImport, CallGraph, Calls;
    EdgeMeans(project, byImport, a, b);
  }

  lemma OneLast(project: Project, p: Pos, q: Pos, k: Key)
    requires LastUnder(project, p, k) && LastUnder(project, q, k)
    ensures p == q
  {
  }
}
