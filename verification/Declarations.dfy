/** What a loaded project declares, by position: packages, files and declarations in loading
    order. */
module Declarations {
  import opened Order
  import opened Resolve
  import opened Wrappers

  datatype Pos = Pos(pkg: nat, file: nat, decl: nat)

  predicate PosBefore(p: Pos, q: Pos)
  {
    p.pkg < q.pkg || (p.pkg == q.pkg && (p.file < q.file || (p.file == q.file && p.decl < q.decl)))
  }

  predicate IsPos(project: Project, p: Pos)
  {
    p.pkg < |project| && p.file < |project[p.pkg].files| && p.decl < |project[p.pkg].files[p.file].decls|
  }

  function PackageAt(project: Project, p: Pos): Package
    requires IsPos(project, p)
  {
    project[p.pkg]
  }

  function FileAt(project: Project, p: Pos): File
    requires IsPos(project, p)
  {
    project[p.pkg].files[p.file]
  }

  function DeclAt(project: Project, p: Pos): FuncDecl
    requires IsPos(project, p)
  {
    project[p.pkg].files[p.file].decls[p.decl]
  }

  // A declaration with a body under the key.
  predicate Declares(project: Project, p: Pos, k: Key)
  {
    IsPos(project, p) && PackageAt(project, p).id == k.pkgID && DeclAt(project, p).name == k.name && DeclAt(project, p).body.Some?
  }

  // The last such declaration.
  ghost predicate LastUnder(project: Project, p: Pos, k: Key)
  {
    Declares(project, p, k) && forall q :: Declares(project, q, k) ==> !PosBefore(p, q)
  }

  predicate HasAlias(project: Project, i: nat, j: nat, id: string, x: string)
  {
    i < |project| && j < |project[i].files| && project[i].id == id && x in project[i].files[j].aliases
  }

  // The last file of the package ID that declares the alias maps it to path t.
  ghost predicate AliasFor(project: Project, id: string, x: string, t: string)
  {
    exists i: nat, j: nat :: HasAlias(project, i, j, id, x) && project[i].files[j].aliases[x] == t && LastAlias(project, i, j, id, x)
  }

  ghost predicate LastAlias(project: Project, i: nat, j: nat, id: string, x: string)
  {
    forall u: nat, v: nat :: HasAlias(project, u, v, id, x) ==> u < i || (u == i && v <= j)
  }

  // ---- what a call resolves to

  // Of the packages with this path that have the function: the current one, or else the one
  // with the least ID.
  ghost predicate Chosen(project: Project, path: string, name: string, current: string, known: Option<set<Key>>, b: Key)
  {
    && b.name == name && Candidate(project, path, name, known, b.pkgID)
    && (b.pkgID == current || (!Candidate(project, path, name, known, current)
                               && forall id :: Candidate(project, path, name, known, id) ==> Leq(b.pkgID, id)))
  }

  // The target that the type information names.
  ghost predicate TypedTarget(project: Project, current: string, c: Call, hasTypes: bool, known: Option<set<Key>>, b: Key)
  {
    && hasTypes && c.callee != OtherCallee && c.typed.Some?
    && Chosen(project, c.typed.value.0, c.typed.value.1, current, known, b)
  }

  // A plain name means the caller's package, a selection the package behind the alias.
  ghost predicate SyntaxTarget(project: Project, current: string, c: Call, aliases: map<string, string>, known: Option<set<Key>>, b: Key)
  {
    || (c.callee.Ident? && b == Key(current, c.callee.name) && (known.Some? ==> b in known.value))
    || (c.callee.Selector? && c.callee.alias.Some? && c.callee.alias.value in aliases
        && Chosen(project, aliases[c.callee.alias.value], c.callee.sel, current, known, b))
  }

  lemma LookupIsChosen(project: Project, path: string, name: string, current: string, byImport: map<string, seq<string>>, known: Option<set<Key>>, b: Key)
    requires IsByImport(project, byImport)
    ensures Lookup(path, name, current, byImport, known) == Some(b) <==> Chosen(project, path, name, current, known, b)
  {
    hide Lookup, Candidate, IsByImport, Leq;
    LookupFinds(project, path, name, current, byImport, known);
    var r := Lookup(path, name, current, byImport, known);
    if r.Some? {
      LeqTotal(r.value.pkgID, b.pkgID);
    }
  }

  /** A call resolves to the typed target when there is one, and to the syntactic one
      otherwise. */
  lemma CallResolves(project: Project, current: string, c: Call, hasTypes: bool, aliases: map<string, string>,
                     byImport: map<string, seq<string>>, known: Option<set<Key>>, b: Key)
    requires IsByImport(project, byImport)
    ensures ResolveFunctionCall(current, c, hasTypes, aliases, byImport, known) == Some(b) <==>
      || TypedTarget(project, current, c, hasTypes, known, b)
      || ((forall d :: !TypedTarget(project, current, c, hasTypes, known, d)) && SyntaxTarget(project, current, c, aliases, known, b))
  {
    hide Lookup, Chosen, IsByImport;
    forall d
      ensures ResolveByTypes(current, c, hasTypes, byImport, known) == Some(d) <==> TypedTarget(project, current, c, hasTypes, known, d)
    {
      if c.typed.Some? {
        LookupIsChosen(project, c.typed.value.0, c.typed.value.1, current, byImport, known, d);
      }
    }
    if c.callee.Selector? && c.callee.alias.Some? && c.callee.alias.value in aliases {
      LookupIsChosen(project, aliases[c.callee.alias.value], c.callee.sel, current, byImport, known, b);
    }
  }

  // ---- lists with an entry for some of the declarations

  // f says what a declaration contributes.
  function GatherDecls<T>(pkg: Package, file: File, decls: seq<FuncDecl>, f: (Package, File, FuncDecl) -> seq<T>): seq<T>
  {
    if decls == [] then []
    else GatherDecls(pkg, file, decls[..|decls| - 1], f) + f(pkg, file, decls[|decls| - 1])
  }

  function GatherFiles<T>(pkg: Package, files: seq<File>, f: (Package, File, FuncDecl) -> seq<T>): seq<T>
  {
    if files == [] then []
    else GatherFiles(pkg, files[..|files| - 1], f) + GatherDecls(pkg, files[|files| - 1], files[|files| - 1].decls, f)
  }

  function Gather<T>(project: Project, f: (Package, File, FuncDecl) -> seq<T>): seq<T>
  {
    if project == [] then []
    else Gather(project[..|project| - 1], f) + GatherFiles(project[|project| - 1], project[|project| - 1].files, f)
  }

  // What the declaration at p contributes.
  ghost function Share<T>(project: Project, p: Pos, f: (Package, File, FuncDecl) -> seq<T>): seq<T>
    requires IsPos(project, p)
  {
    f(PackageAt(project, p), FileAt(project, p), DeclAt(project, p))
  }

  // list has the shares of the positions "at", which are those before the limit, in order.
  ghost predicate Listed<T(!new)>(project: Project, f: (Package, File, FuncDecl) -> seq<T>, limit: Pos, list: seq<T>, at: seq<Pos>)
  {
    && |at| == |list|
    && (forall k :: 0 <= k < |at| ==> IsPos(project, at[k]) && PosBefore(at[k], limit) && Share(project, at[k], f) == [list[k]])
    && (forall k, l :: 0 <= k < l < |at| ==> PosBefore(at[k], at[l]))
    && forall p :: IsPos(project, p) && PosBefore(p, limit) && Share(project, p, f) != [] ==> p in at
  }

  ghost predicate AtMostOne<T(!new)>(f: (Package, File, FuncDecl) -> seq<T>)
  {
    forall pkg, file, d :: |f(pkg, file, d)| <= 1
  }

  // A position, or the end of a file, of a package or of the project.
  predicate IsLimit(project: Project, limit: Pos)
  {
    if limit.pkg >= |project| then limit == Pos(|project|, 0, 0)
    else if limit.file >= |project[limit.pkg].files| then limit.file == |project[limit.pkg].files| && limit.decl == 0
    else limit.decl <= |project[limit.pkg].files[limit.file].decls|
  }

  // The part of the list that comes from the positions before the limit.
  function GatherUpTo<T>(project: Project, limit: Pos, f: (Package, File, FuncDecl) -> seq<T>): seq<T>
    requires IsLimit(project, limit)
  {
    Gather(project[..limit.pkg], f)
    + if limit.pkg == |project| then []
      else
        var pkg := project[limit.pkg];
        GatherFiles(pkg, pkg.files[..limit.file], f)
        + if limit.file == |pkg.files| then [] else GatherDecls(pkg, pkg.files[limit.file], pkg.files[limit.file].decls[..limit.decl], f)
  }

  lemma NextDecl<T>(project: Project, prev: Pos, f: (Package, File, FuncDecl) -> seq<T>)
    requires IsPos(project, prev)
    ensures IsLimit(project, prev) && IsLimit(project, prev.(decl := prev.decl + 1))
    ensures GatherUpTo(project, prev.(decl := prev.decl + 1), f) == GatherUpTo(project, prev, f) + Share(project, prev, f)
  {
    hide Gather, GatherFiles;
    var decls := FileAt(project, prev).decls;
    assert decls[..prev.decl + 1][..prev.decl] == decls[..prev.decl];
  }

  // At the end of a file, the next one begins.
  lemma NextFile<T>(project: Project, i: nat, j: nat, f: (Package, File, FuncDecl) -> seq<T>)
    requires i < |project| && j < |project[i].files|
    ensures var prev := Pos(i, j, |project[i].files[j].decls|);
      IsLimit(project, prev) && IsLimit(project, Pos(i, j + 1, 0)) && GatherUpTo(project, Pos(i, j + 1, 0), f) == GatherUpTo(project, prev, f)
  {
    hide Gather;
    var pkg := project[i];
    assert pkg.files[..j + 1][..j] == pkg.files[..j];
    assert pkg.files[j].decls[..|pkg.files[j].decls|] == pkg.files[j].decls;
    if j + 1 < |pkg.files| {
      assert pkg.files[j + 1].decls[..0] == [];
    }
  }

  lemma NextPackage<T>(project: Project, i: nat, f: (Package, File, FuncDecl) -> seq<T>)
    requires i < |project|
    ensures var prev := Pos(i, |project[i].files|, 0);
      IsLimit(project, prev) && IsLimit(project, Pos(i + 1, 0, 0)) && GatherUpTo(project, Pos(i + 1, 0, 0), f) == GatherUpTo(project, prev, f)
  {
    hide GatherDecls;
    assert project[..i + 1][..i] == project[..i];
    assert project[i].files[..|project[i].files|] == project[i].files;
    NothingGathered(project, i + 1, f);
  }

  lemma {:induction false} NothingGathered<T>(project: Project, i: nat, f: (Package, File, FuncDecl) -> seq<T>)
    requires i <= |project|
    ensures IsLimit(project, Pos(i, 0, 0)) && GatherUpTo(project, Pos(i, 0, 0), f) == Gather(project[..i], f)
  {
    hide Gather;
  }

  lemma {:induction false} ListedUpTo<T(!new)>(project: Project, limit: Pos, f: (Package, File, FuncDecl) -> seq<T>) returns (at: seq<Pos>)
    requires IsLimit(project, limit) && AtMostOne(f)
    ensures Listed(project, f, limit, GatherUpTo(project, limit, f), at)
    decreases limit.pkg, limit.file, limit.decl
  {
    hide GatherUpTo;
    if limit.decl > 0 {
      var prev := limit.(decl := limit.decl - 1);
      at := ListedUpTo(project, prev, f);
      NextDecl(project, prev, f);
      ListedMore(project, prev, f, GatherUpTo(project, prev, f), at);
      at := at + if Share(project, prev, f) == [] then [] else [prev];
    } else if limit.file > 0 {
      var prev := Pos(limit.pkg, limit.file - 1, |project[limit.pkg].files[limit.file - 1].decls|);
      NextFile(project, limit.pkg, limit.file - 1, f);
      at := ListedUpTo(project, prev, f);
    } else if limit.pkg > 0 {
      var prev := Pos(limit.pkg - 1, |project[limit.pkg - 1].files|, 0);
      NextPackage(project, limit.pkg - 1, f);
      at := ListedUpTo(project, prev, f);
    } else {
      NothingGathered(project, 0, f);
      at := [];
    }
  }

  lemma ListedMore<T(!new)>(project: Project, prev: Pos, f: (Package, File, FuncDecl) -> seq<T>, list: seq<T>, at: seq<Pos>)
    requires IsPos(project, prev) && AtMostOne(f) && Listed(project, f, prev, list, at)
    ensures Listed(project, f, prev.(decl := prev.decl + 1), list + Share(project, prev, f),
                   at + if Share(project, prev, f) == [] then [] else [prev])
  {
    var share := Share(project, prev, f);
    assert |share| <= 1;
    var at' := at + if share == [] then [] else [prev];
    forall p | IsPos(project, p) && PosBefore(p, prev.(decl := prev.decl + 1)) && Share(project, p, f) != []
      ensures p in at'
    {
      if p != prev {
        assert p in at;
      }
    }
  }

  /** The gathered list has the shares of exactly the declarations that contribute, in loading
      order. */
  lemma GatherListed<T(!new)>(project: Project, f: (Package, File, FuncDecl) -> seq<T>) returns (at: seq<Pos>)
    requires AtMostOne(f)
    ensures Listed(project, f, Pos(|project|, 0, 0), Gather(project, f), at)
  {
    at := ListedUpTo(project, Pos(|project|, 0, 0), f);
    NothingGathered(project, |project|, f);
    assert project[..|project|] == project;
  }
}
