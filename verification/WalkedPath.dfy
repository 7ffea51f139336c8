/** Which occurrence ClonePath replaces: the one the walk came through, and the exact
    exception. */
module WalkedPath {
  import opened AstNode
  import opened ClonePath
  import opened DeepCopy
  import opened Collect
  import opened FileNode

  predicate HoldsAt(fields: Fields, s: Slot, c: Node)
  {
    s.field < |fields| && s.item < |fields[s.field]| && fields[s.field][s.item] == c
  }

  /** w is the way a walk took along the path: at each level a walked slot of the parent that
      holds the next node. */
  ghost predicate WalkedAt(path: seq<Node>, w: seq<Slot>)
    reads path
    decreases |path|
  {
    && |path| == |w| + 1
    && (|path| > 1 ==>
          && w[0].field in path[0].typ.walk && HoldsAt(path[0].fields, w[0], path[1])
          && WalkedAt(path[1..], w[1..]))
  }

  // No slot that is searched before s holds c.
  ghost predicate Leads(t: NodeType, fields: Fields, s: Slot, c: Node)
    requires HoldsAt(fields, s, c) && |fields| == |t.specs|
  {
    && (forall f :: 0 <= f < s.field ==> c !in fields[f])
    && (t.specs[s.field].shape == Slice ==> c !in fields[s.field][..s.item])
  }

  ghost predicate Leading(path: seq<Node>, w: seq<Slot>)
    requires WalkedAt(path, w) && AllFit(path)
    reads path
    decreases |path|
  {
    |path| > 1 ==> Leads(path[0].typ, path[0].fields, w[0], path[1]) && Leading(path[1..], w[1..])
  }

  ghost predicate AllFit(path: seq<Node>)
    reads path
  {
    forall n :: n in path ==> FieldsFit(n.typ, n.fields)
  }

  // A map field holds a child at most once; its search order is unspecified.
  ghost predicate TableOnce(t: NodeType, fields: Fields, c: Node)
    requires |fields| == |t.specs|
  {
    forall f: nat, j: nat, k: nat :: f < |fields| && t.specs[f].shape == Table && HoldsAt(fields, Slot(f, j), c) && HoldsAt(fields, Slot(f, k), c) ==> j == k
  }

  ghost predicate TablesOnce(path: seq<Node>)
    requires AllFit(path)
    reads path
    decreases |path|
  {
    |path| > 1 ==> TableOnce(path[0].typ, path[0].fields, path[1]) && TablesOnce(path[1..])
  }

  lemma LevelIsWalked(t: NodeType, before: Fields, after: Fields, at: Slot, s: Slot, c: Node, d: Node)
    requires FieldsFit(t, before) && d.typ == c.typ && TableOnce(t, before, c)
    requires Replaced(t, before, after, at.field, at.item, c, d) && HoldsAt(before, s, c)
    ensures at == s <==> Leads(t, before, s, c)
  {
    forall f | 0 <= f < |before| && c in before[f]
      ensures Hit(t, before, f, c, d)
    {
      assert ItemsFit(t.specs[f], before[f]);
    }
    assert ItemsFit(t.specs[s.field], before[s.field]);
    assert c in before[s.field];
    if Leads(t, before, s, c) {
      assert at.field == s.field;
      if t.specs[s.field].shape == Slice {
        assert forall j :: 0 <= j < s.item ==> before[s.field][..s.item][j] == before[s.field][j];
        assert forall j :: 0 <= j < at.item ==> before[s.field][..at.item][j] == before[s.field][j];
      }
    }
  }

  /** The address at which ClonePath substitutes is the one the walk took if and only if no
      slot that is searched earlier holds a node of the path. */
  lemma {:induction false} AddressIsWalked(path: seq<Node>, spine: seq<Node>, at: seq<Slot>, w: seq<Slot>)
    requires AllFit(path) && TablesOnce(path) && Spliced(path, spine, at) && WalkedAt(path, w)
    requires spine[|spine| - 1].typ == path[|path| - 1].typ
    ensures at == w <==> Leading(path, w)
    decreases |path|
  {
    if |path| > 1 {
      AddressIsWalked(path[1..], spine[1..], at[1..], w[1..]);
      assert at == [at[0]] + at[1..] && w == [w[0]] + w[1..];
      LevelIsWalked(path[0].typ, path[0].fields, spine[0].fields, at[0], w[0], path[1], spine[1]);
    }
  }

  ghost predicate OneWalkedSlot(t: NodeType, fields: Fields, c: Node)
  {
    forall s: Slot, u: Slot :: s.field in t.walk && u.field in t.walk && HoldsAt(fields, s, c) && HoldsAt(fields, u, c) ==> s == u
  }

  // Each node has one walked slot in its parent, as in a syntax tree.
  ghost predicate SoleWalked(path: seq<Node>)
    reads path
    decreases |path|
  {
    |path| > 1 ==>
      && OneWalkedSlot(path[0].typ, path[0].fields, path[1])
      && SoleWalked(path[1..])
  }

  ghost predicate AllWalked(t: NodeType)
  {
    forall i: nat :: i < |t.specs| ==> i in t.walk
  }

  // The walk goes from the file into its package comment, which is also listed in Comments.
  ghost predicate ThroughListedDoc(path: seq<Node>, w: seq<Slot>)
    reads path
  {
    && |path| == |w| + 1 > 1
    && w[0].field == DOC && FieldsFit(FILE_TYPE, path[0].fields) && DocIsListed(path[0].fields)
  }

  lemma SoleLevel(t: NodeType, fields: Fields, s: Slot, c: Node)
    requires FieldsFit(t, fields) && AllWalked(t) && HoldsAt(fields, s, c)
    requires OneWalkedSlot(t, fields, c)
    ensures Leads(t, fields, s, c) && TableOnce(t, fields, c)
  {
    forall f, j | 0 <= f < |fields| && 0 <= j < |fields[f]| && fields[f][j] == c
      ensures f == s.field && j == s.item
    {
      assert HoldsAt(fields, Slot(f, j), c) && HoldsAt(fields, Slot(s.field, s.item), c);
    }
  }

  lemma {:induction false} SoleBelow(path: seq<Node>, w: seq<Slot>)
    requires AllFit(path) && WalkedAt(path, w) && SoleWalked(path)
    requires forall k :: 0 <= k < |path| - 1 ==> AllWalked(path[k].typ)
    ensures Leading(path, w) && TablesOnce(path)
    decreases |path|
  {
    if |path| > 1 {
      SoleBelow(path[1..], w[1..]);
      SoleLevel(path[0].typ, path[0].fields, w[0], path[1]);
    }
  }

  lemma FileLevel(fields: Fields, s: Slot, c: Node)
    requires FieldsFit(FILE_TYPE, fields) && s.field in FILE_TYPE.walk && HoldsAt(fields, s, c)
    requires OneWalkedSlot(FILE_TYPE, fields, c)
    ensures Leads(FILE_TYPE, fields, s, c) <==> !(s.field == DOC && DocIsListed(fields))
    ensures TableOnce(FILE_TYPE, fields, c)
  {
    forall i | 0 <= i < 6 ensures ItemsFit(FILE_TYPE.specs[i], fields[i]) {}
    assert c in fields[s.field];
    assert HoldsAt(fields, Slot(s.field, s.item), c);
    forall f, j | f in FILE_TYPE.walk && 0 <= j < |fields[f]| && fields[f][j] == c
      ensures f == s.field && j == s.item
    {
      assert HoldsAt(fields, Slot(f, j), c);
    }
    assert DECLS in FILE_TYPE.walk && DOC in FILE_TYPE.walk && NAME in FILE_TYPE.walk;
    assert s.field == DOC ==> fields[DOC][0] == c;
  }

  // A path down a syntax tree in which the file alone has skipped fields.
  ghost predicate InTree(path: seq<Node>)
    reads path
  {
    && path != [] && path[0].typ == FILE_TYPE && SoleWalked(path)
    && forall k :: 0 < k < |path| - 1 ==> AllWalked(path[k].typ)
  }

  lemma {:induction false} FileLeading(path: seq<Node>, w: seq<Slot>)
    requires AllFit(path) && WalkedAt(path, w) && InTree(path)
    ensures TablesOnce(path) && (Leading(path, w) <==> !ThroughListedDoc(path, w))
  {
    hide FieldsFit, AllWalked, DocIsListed, OneWalkedSlot, TableOnce, Leads;
    if |path| > 1 {
      assert forall k :: 0 <= k < |path| - 2 ==> path[1..][k] == path[k + 1];
      SoleBelow(path[1..], w[1..]);
      FileLevel(path[0].fields, w[0], path[1]);
    }
  }

  lemma DocLevel(before: Fields, after: Fields, at: Slot, s: Slot, c: Node, d: Node)
    requires FieldsFit(FILE_TYPE, before) && d.typ == c.typ && Replaced(FILE_TYPE, before, after, at.field, at.item, c, d)
    requires s.field == DOC && HoldsAt(before, s, c) && DocIsListed(before)
    ensures at.field == COMMENTS && after[DOC] == before[DOC]
  {
    hide Replaced;
    assert ItemsFit(FILE_TYPE.specs[DOC], before[DOC]);
    assert before[DOC] == [c];
    DocMutationLandsInComments(before, after, at.field, at.item, c, d);
  }

  lemma {:induction false} SplicedHead(path: seq<Node>, spine: seq<Node>, at: seq<Slot>)
    requires Spliced(path, spine, at) && |path| > 1 && spine[|spine| - 1].typ == path[|path| - 1].typ
    ensures |spine| == |path| && |at| == |path| - 1
    ensures Replaced(path[0].typ, path[0].fields, spine[0].fields, at[0].field, at[0].item, path[1], spine[1])
    ensures spine[1].typ == path[1].typ
  {
    hide Replaced;
  }

  /** In a syntax tree whose other node types have no skipped fields, ClonePath replaces the
      occurrence the walk came through if and only if the way does not lead through a listed
      package comment. If it does, Comments gets the mutant and Doc keeps the original. */
  lemma {:induction false} ListedDocIsTheException(path: seq<Node>, spine: seq<Node>, at: seq<Slot>, w: seq<Slot>)
    requires AllFit(path) && Spliced(path, spine, at) && WalkedAt(path, w) && InTree(path)
    requires spine[|spine| - 1].typ == path[|path| - 1].typ
    ensures at == w <==> !ThroughListedDoc(path, w)
    ensures ThroughListedDoc(path, w) ==> at[0].field == COMMENTS && spine[0].fields[DOC] == path[0].fields[DOC]
  {
    hide FieldsFit, SoleWalked, AllWalked, DocIsListed, Leading, TablesOnce, Replaced, Spliced;
    FileLeading(path, w);
    AddressIsWalked(path, spine, at, w);
    if ThroughListedDoc(path, w) {
      SplicedHead(path, spine, at);
      DocLevel(path[0].fields, spine[0].fields, at[0], w[0], path[1], spine[1]);
    }
  }

  /** Every walk has such a way. */
  lemma {:induction false} TrailHasWay(graph: set<Node>, n: Node, trail: seq<Node>, c: Node) returns (w: seq<Slot>)
    requires Closed(graph) && IsTrail(graph, n, trail, c)
    ensures WalkedAt(trail, w)
    decreases |trail|
  {
    hide Closed, IsTrail, Children, FieldsFit;
    TrailTail(graph, n, trail, c);
    TrailEnd(graph, n, trail, c);
    w := [];
    if |trail| > 1 {
      var rest := TrailHasWay(graph, trail[1], trail[1..], c);
      var s := ChildSlot(graph, n, trail[1]);
      w := [s] + rest;
      assert w[1..] == rest;
    }
  }

  lemma ChildSlot(graph: set<Node>, n: Node, c: Node) returns (s: Slot)
    requires Closed(graph) && n in graph && c in ChildrenIn(graph, n)
    ensures s.field in n.typ.walk && HoldsAt(n.fields, s, c)
  {
    WalkSeqMember(n.fields, n.typ.walk, c);
    var k :| 0 <= k < |n.typ.walk| && c in n.fields[n.typ.walk[k]];
    var f := n.typ.walk[k];
    var j :| 0 <= j < |n.fields[f]| && n.fields[f][j] == c;
    s := Slot(f, j);
  }

  predicate WalkedSlot(n: Node, s: Slot, c: Node)
    reads n
  {
    s.field in n.typ.walk && HoldsAt(n.fields, s, c)
  }

  // A syntax tree: each node sits in one walked slot of one parent.
  ghost predicate TreeShaped(graph: set<Node>)
    reads graph
  {
    forall n, m, c, s, u :: n in graph && m in graph && c in graph && WalkedSlot(n, s, c) && WalkedSlot(m, u, c) ==> n == m && s == u
  }

  // Skipped fields belong to the file alone.
  ghost predicate OnlyFileSkips(graph: set<Node>, file: Node)
  {
    file.typ == FILE_TYPE && forall n :: n in graph && n != file ==> AllWalked(n.typ)
  }

  lemma {:induction false} TreeTrail(graph: set<Node>, rank: map<Node, nat>, n: Node, trail: seq<Node>, c: Node)
    requires Closed(graph) && Acyclic(graph, rank) && TreeShaped(graph) && IsTrail(graph, n, trail, c)
    ensures SoleWalked(trail) && trail[0] == n && n in rank
    ensures forall k :: 0 < k < |trail| ==> trail[k] in rank && rank[trail[k]] < rank[n]
    decreases |trail|
  {
    hide Closed, IsTrail, Children, FieldsFit, Acyclic, OneWalkedSlot, TreeShaped;
    TrailTail(graph, n, trail, c);
    TrailEnd(graph, n, trail, c);
    RankKeys(graph, rank);
    if |trail| > 1 {
      TreeTrail(graph, rank, trail[1], trail[1..], c);
      ChildInGraph(graph, rank, n, trail[1]);
      OneSlot(graph, n, trail[1]);
      forall k | 0 < k < |trail|
        ensures trail[k] in rank && rank[trail[k]] < rank[n]
      {
        assert k > 1 ==> trail[k] == trail[1..][k - 1];
      }
    }
  }

  lemma OneSlot(graph: set<Node>, n: Node, c: Node)
    requires TreeShaped(graph) && n in graph && c in graph
    ensures OneWalkedSlot(n.typ, n.fields, c)
  {
    forall s: Slot, u: Slot | s.field in n.typ.walk && u.field in n.typ.walk && HoldsAt(n.fields, s, c) && HoldsAt(n.fields, u, c)
      ensures s == u
    {
      assert WalkedSlot(n, s, c) && WalkedSlot(n, u, c);
    }
  }

  lemma RankKeys(graph: set<Node>, rank: map<Node, nat>)
    requires Closed(graph) && Acyclic(graph, rank)
    ensures rank.Keys == graph
  {
  }

  lemma {:induction false} TreePath(graph: set<Node>, rank: map<Node, nat>, file: Node, trail: seq<Node>, c: Node)
    requires Closed(graph) && Acyclic(graph, rank) && TreeShaped(graph) && OnlyFileSkips(graph, file)
    requires IsTrail(graph, file, trail, c)
    ensures InTree(trail)
  {
    hide Closed, IsTrail, AllWalked, SoleWalked, TreeShaped, Acyclic;
    TreeTrail(graph, rank, file, trail, c);
    TrailEnd(graph, file, trail, c);
    RankKeys(graph, rank);
  }
}
