/** From a collected point to the mutated file: mutation.Collect, then astclone.ClonePath. */
module Mutate {
  import opened AstNode
  import opened DeepCopy
  import opened ClonePath
  import opened PathMeaning
  import opened Collect
  import opened FileNode
  import opened WalkedPath

  lemma {:induction false} TrailIsCloneable(graph: set<Node>, n: Node, trail: seq<Node>, c: Node, nodeMut: Node)
    requires Closed(graph) && IsTrail(graph, n, trail, c) && nodeMut.typ == c.typ
    requires forall k :: 0 <= k < |trail| - 1 ==> trail[k].typ.supported
    ensures Cloneable(trail, nodeMut)
    decreases |trail|
  {
    hide Closed, Children, IsTrail, CanReplace;
    TrailTail(graph, n, trail, c);
    TrailEnd(graph, n, trail, c);
    if |trail| > 1 {
      TrailIsCloneable(graph, trail[1], trail[1..], c, nodeMut);
      TrailEnd(graph, trail[1], trail[1..], c);
      ChildHasSlot(graph, n, trail[1], if |trail| == 2 then nodeMut else trail[1]);
    }
  }

  lemma ChildHasSlot(graph: set<Node>, n: Node, c: Node, newChild: Node)
    requires Closed(graph) && n in graph && c in ChildrenIn(graph, n) && n.typ.supported && newChild.typ == c.typ
    ensures CanReplace(n, c, newChild)
  {
    WalkSeqMember(n.fields, n.typ.walk, c);
    var k :| 0 <= k < |n.typ.walk| && c in n.fields[n.typ.walk[k]];
    assert ItemsFit(n.typ.specs[n.typ.walk[k]], n.fields[n.typ.walk[k]]);
    assert Hit(n.typ, n.fields, n.typ.walk[k], c, newChild);
  }

  lemma {:induction false} PointReady(graph: set<Node>, rank: map<Node, nat>, targets: set<string>, file: Node, pt: Point, nodeMut: Node)
    requires Closed(graph) && Acyclic(graph, rank) && file in graph
    requires pt in PointsOf(graph, rank, targets, file, []) && nodeMut.typ == pt.node.typ
    requires forall k :: 0 <= k < |pt.path| - 1 ==> pt.path[k].typ.supported
    ensures Cloneable(pt.path, nodeMut) && forall m :: m in pt.path ==> FieldsFit(m.typ, m.fields)
    ensures pt.path != [] && pt.path[0] == file && Originals(pt.path, pt.node) == pt.path && pt.path[|pt.path| - 1] == pt.node
    ensures |pt.path| == 1 ==> pt.node == file
  {
    hide Closed, IsTrail, Children, Cloneable, Acyclic, PointsOf, FieldsFit;
    PointsAreTrails(graph, rank, targets, file, [], pt);
    assert pt.path[0..] == pt.path;
    TrailIsCloneable(graph, file, pt.path, pt.node, nodeMut);
    TrailEnd(graph, file, pt.path, pt.node);
    TrailTail(graph, file, pt.path, pt.node);
    TrailFits(graph, file, pt.path, pt.node);
  }

  // Where the mutant lands, for every way w on which a walk can have come along the path.
  ghost predicate LandsAsWalked(path: seq<Node>, at: seq<Slot>)
    requires AllFit(path)
    reads path
  {
    && (exists w :: WalkedAt(path, w))
    && (TablesOnce(path) ==> forall w :: WalkedAt(path, w) ==> (at == w <==> Leading(path, w)))
  }

  // The same in a syntax tree, where only the way into a listed package comment is missed.
  ghost predicate LandsUnlessListedDoc(path: seq<Node>, at: seq<Slot>)
    reads path
  {
    forall w :: WalkedAt(path, w) ==>
      && (at == w <==> !ThroughListedDoc(path, w))
      && (ThroughListedDoc(path, w) ==> at != [] && at[0].field == COMMENTS)
  }

  lemma {:induction false} TrailLands(graph: set<Node>, file: Node, path: seq<Node>, c: Node, spine: seq<Node>, at: seq<Slot>)
    requires Closed(graph) && IsTrail(graph, file, path, c) && AllFit(path)
    requires Spliced(path, spine, at) && |path| == |spine| == |at| + 1 && spine[|spine| - 1].typ == path[|path| - 1].typ
    ensures LandsAsWalked(path, at)
  {
    hide Closed, IsTrail, Children, Spliced, AllFit, TablesOnce, Leading, WalkedAt;
    var way := TrailHasWay(graph, file, path, c);
    if TablesOnce(path) {
      forall w | WalkedAt(path, w)
        ensures at == w <==> Leading(path, w)
      {
        AddressIsWalked(path, spine, at, w);
      }
    }
  }

  lemma {:induction false} TreePathLands(path: seq<Node>, spine: seq<Node>, at: seq<Slot>)
    requires AllFit(path) && Spliced(path, spine, at) && |path| == |spine| == |at| + 1 && InTree(path)
    requires spine[|spine| - 1].typ == path[|path| - 1].typ
    ensures LandsUnlessListedDoc(path, at)
  {
    hide AllFit, Spliced, InTree, WalkedAt, FieldsFit, DocIsListed;
    forall w | WalkedAt(path, w)
      ensures at == w <==> !ThroughListedDoc(path, w)
      ensures ThroughListedDoc(path, w) ==> at[0].field == COMMENTS
    {
      ListedDocIsTheException(path, spine, at, w);
    }
  }

  lemma {:induction false} TreeTrailLands(graph: set<Node>, rank: map<Node, nat>, file: Node, path: seq<Node>, c: Node, spine: seq<Node>, at: seq<Slot>)
    requires Closed(graph) && Acyclic(graph, rank) && IsTrail(graph, file, path, c) && AllFit(path)
    requires Spliced(path, spine, at) && |path| == |spine| == |at| + 1 && spine[|spine| - 1].typ == path[|path| - 1].typ
    requires path[0] == file && TreeShaped(graph) && OnlyFileSkips(graph, file)
    ensures LandsUnlessListedDoc(path, at)
  {
    hide Closed, IsTrail, Acyclic, Spliced, TreeShaped, OnlyFileSkips, AllFit, LandsUnlessListedDoc, InTree;
    TreePath(graph, rank, file, path, c);
    TreePathLands(path, spine, at);
  }

  lemma {:induction false} PointLands(graph: set<Node>, rank: map<Node, nat>, targets: set<string>, file: Node, pt: Point, spine: seq<Node>, at: seq<Slot>)
    requires Closed(graph) && Acyclic(graph, rank) && file in graph
    requires pt in PointsOf(graph, rank, targets, file, []) && AllFit(pt.path)
    requires Spliced(pt.path, spine, at) && |pt.path| == |spine| == |at| + 1
    requires pt.path[0] == file && pt.path[|pt.path| - 1] == pt.node && spine[|spine| - 1].typ == pt.node.typ
    ensures LandsAsWalked(pt.path, at)
    ensures TreeShaped(graph) && OnlyFileSkips(graph, file) ==> LandsUnlessListedDoc(pt.path, at)
  {
    hide Closed, IsTrail, Children, Acyclic, PointsOf, Spliced, AllFit, LandsAsWalked, LandsUnlessListedDoc, TreeShaped;
    PointsAreTrails(graph, rank, targets, file, [], pt);
    assert pt.path[0..] == pt.path;
    TrailLands(graph, file, pt.path, pt.node, spine, at);
    if TreeShaped(graph) && OnlyFileSkips(graph, file) {
      TreeTrailLands(graph, rank, file, pt.path, pt.node, spine, at);
    }
  }

  // ClonePath on an emitted point.
  method ClonePoint(ghost graph: set<Node>, ghost rank: map<Node, nat>, ghost targets: set<string>, file: Node, pt: Point, nodeMut: Node)
    returns (mutated: Node, cloneMap: map<Node, Node>, ghost spine: seq<Node>, ghost at: seq<Slot>)
    requires Closed(graph) && Acyclic(graph, rank) && file in graph && file.typ.name == FILE
    requires pt in PointsOf(graph, rank, targets, file, []) && nodeMut.typ == pt.node.typ
    requires forall k :: 0 <= k < |pt.path| - 1 ==> pt.path[k].typ.supported
    ensures |spine| == |pt.path| == |at| + 1 && spine[0] == mutated && spine[|spine| - 1] == nodeMut
    ensures forall k :: 0 <= k < |spine| - 1 ==> fresh(spine[k])
    ensures Recorded(cloneMap, pt.path, spine) && Spliced(pt.path, spine, at)
    ensures AllFit(pt.path) && pt.path[0] == file && pt.path[|pt.path| - 1] == pt.node
  {
    hide Closed, Cloneable, Spliced, Recorded, Acyclic, PointsOf, FieldsFit;
    PointReady(graph, rank, targets, file, pt, nodeMut);
    var found: Node?;
    var err;
    found, cloneMap, err, spine, at := ClonePath.ClonePath(pt.path, pt.node, nodeMut);
    mutated := found;
    SplicedLength(pt.path, spine, at);
  }

  /** For every point that Collect emits for a file and every replacement of the same type,
      ClonePath succeeds: only the nodes on the path are new, one slot of each differs from
      its original, and the new file unfolds to the old one with the mutant at the address of
      that one occurrence. The address is the way of the walk exactly where no slot that is
      searched earlier holds a path node. */
  method MutatePoint(ghost graph: set<Node>, ghost rank: map<Node, nat>, ghost targets: set<string>, file: Node, pt: Point,
                     nodeMut: Node, ghost extra: set<Node>, ghost t: Tree, ghost u: Tree)
    returns (mutated: Node, cloneMap: map<Node, Node>, ghost spine: seq<Node>, ghost at: seq<Slot>)
    requires Closed(graph) && Acyclic(graph, rank) && file in graph && file.typ.name == FILE
    requires pt in PointsOf(graph, rank, targets, file, []) && nodeMut.typ == pt.node.typ
    requires forall k :: 0 <= k < |pt.path| - 1 ==> pt.path[k].typ.supported
    requires Denotes(Snap(graph + extra), file, t) && Denotes(Snap(graph + extra), nodeMut, u)
    ensures |spine| == |pt.path| == |at| + 1 && spine[0] == mutated && spine[|spine| - 1] == nodeMut
    ensures forall k :: 0 <= k < |spine| - 1 ==> fresh(spine[k])
    ensures Recorded(cloneMap, pt.path, spine) && Spliced(pt.path, spine, at)
    ensures AllFit(pt.path) && pt.path[0] == file && LandsAsWalked(pt.path, at)
    ensures TreeShaped(graph) && OnlyFileSkips(graph, file) ==> LandsUnlessListedDoc(pt.path, at)
    ensures IsAddress(t, at) && Denotes(Snap(graph + extra), pt.node, Subtree(t, at))
    ensures Denotes(Snap(graph + extra + set n | n in spine), mutated, Substitute(t, at, u))
  {
    hide Closed, Denotes, Spliced, Recorded, Acyclic, PointsOf, AllFit, IsAddress, Subtree, Substitute, LandsAsWalked, LandsUnlessListedDoc, TreeShaped, OnlyFileSkips;
    ghost var h := Snap(graph + extra);
    mutated, cloneMap, spine, at := ClonePoint(graph, rank, targets, file, pt, nodeMut);
    PointLands(graph, rank, targets, file, pt, spine, at);
    SpliceSubstitutes(h, Snap(graph + extra + set n | n in spine), pt.path, spine, at, t, u);
  }

  lemma {:induction false} SplicedLength(orig: seq<Node>, spine: seq<Node>, slots: seq<Slot>)
    requires Spliced(orig, spine, slots)
    ensures |orig| == |spine| == |slots| + 1
  {
  }

  lemma {:induction false} TrailFits(graph: set<Node>, n: Node, trail: seq<Node>, c: Node)
    requires Closed(graph) && IsTrail(graph, n, trail, c)
    ensures forall m :: m in trail ==> m in graph && FieldsFit(m.typ, m.fields)
    decreases |trail|
  {
    if |trail| > 1 {
      TrailFits(graph, n, trail[..|trail| - 1], trail[|trail| - 2]);
      assert trail == trail[..|trail| - 1] + [c];
    } else {
      assert trail == [c];
    }
  }
}
