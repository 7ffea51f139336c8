/** mutation.Collect on one file: the ast.Inspect callback with its path and function
    stacks, and what the emitted points are good for. */
module Collect {
  import opened AstNode
  import opened DeepCopy

  const FILE := "File"
  const FUNC_DECL := "FuncDecl"

  datatype Point = Point(node: Node, path: seq<Node>, enclosing: Node?)

  // "rank" witnesses that the walked part of the graph has no cycle.
  ghost predicate Acyclic(graph: set<Node>, rank: map<Node, nat>)
    requires Closed(graph)
    reads graph
  {
    rank.Keys == graph && forall n, c :: n in graph && c in graph && c in Children(n) ==> rank[c] < rank[n]
  }

  function Funcs(path: seq<Node>): seq<Node>
  {
    if path == [] then []
    else Funcs(path[..|path| - 1]) + if path[|path| - 1].typ.name == FUNC_DECL then [path[|path| - 1]] else []
  }

  lemma {:induction false} FuncsPush(path: seq<Node>, n: Node)
    ensures Funcs(path + [n]) == Funcs(path) + if n.typ.name == FUNC_DECL then [n] else []
  {
    assert (path + [n])[..|path|] == path;
  }

  lemma {:induction false} FuncsPop(path: seq<Node>)
    ensures path != [] ==>
      Funcs(path) == Funcs(path[..|path| - 1]) + if path[|path| - 1].typ.name == FUNC_DECL then [path[|path| - 1]] else []
  {
  }

  class Collector {
    const targets: set<string>
    var pathStack: seq<Node>
    var funcStack: seq<Node>
    var points: seq<Point>

    constructor (targets: set<string>)
      ensures this.targets == targets && pathStack == [] && funcStack == [] && points == []
    {
      this.targets, pathStack, funcStack, points := targets, [], [], [];
    }

    // Called with null when a node's children are done.
    method Callback(n: Node?) returns (descend: bool)
      modifies this
      ensures n == null ==> !descend && points == old(points)
      ensures n == null && old(pathStack) == [] ==> pathStack == [] && funcStack == old(funcStack)
      ensures n == null && old(pathStack) != [] && old(funcStack) == Funcs(old(pathStack)) ==>
        pathStack == old(pathStack)[..|old(pathStack)| - 1] && funcStack == Funcs(pathStack)
      ensures n != null ==> descend && pathStack == old(pathStack) + [n]
      ensures n != null && old(funcStack) == Funcs(old(pathStack)) ==> funcStack == Funcs(pathStack)
      ensures n != null ==> points == old(points) + if n.typ.name in targets then [Point(n, pathStack, Top(funcStack))] else []
    {
      hide Funcs;
      FuncsPop(pathStack);
      if n == null {
        if |pathStack| == 0 {
          return false;
        }
        var last := pathStack[|pathStack| - 1];
        pathStack := pathStack[..|pathStack| - 1];
        if last.typ.name == FUNC_DECL && |funcStack| > 0 {
          funcStack := funcStack[..|funcStack| - 1];
        }
        return false;
      }
      FuncsPush(pathStack, n);
      pathStack := pathStack + [n];
      if n.typ.name == FUNC_DECL {
        funcStack := funcStack + [n];
      }
      if n.typ.name !in targets {
        return true;
      }
      var enclosing := null;
      if |funcStack| > 0 {
        enclosing := funcStack[|funcStack| - 1];
      }
      points := points + [Point(n, pathStack, enclosing)];
      return true;
    }

    /** ast.Inspect below one node: the stacks are balanced, and the points appended are
        those of the preorder specification. */
    method Inspect(n: Node, ghost graph: set<Node>, ghost rank: map<Node, nat>)
      requires Closed(graph) && Acyclic(graph, rank) && n in graph && funcStack == Funcs(pathStack)
      modifies this
      ensures pathStack == old(pathStack) && funcStack == old(funcStack)
      ensures points == old(points) + PointsOf(graph, rank, targets, n, pathStack)
      decreases rank[n], |Children(n)| + 1
    {
      hide Acyclic, Children, PointsOf, PointsOfAll, Funcs;
      PointsOfHead(graph, rank, targets, n, pathStack);
      FuncsPop(pathStack + [n]);
      var descend := Callback(n);
      if descend {
        InspectAll(Children(n), 0, n, graph, rank);
      }
      descend := Callback(null);
    }

    // The children of "parent" from position k on.
    method InspectAll(kids: seq<Node>, k: nat, ghost parent: Node, ghost graph: set<Node>, ghost rank: map<Node, nat>)
      requires Closed(graph) && Acyclic(graph, rank) && parent in graph && kids == Children(parent) && k <= |kids|
      requires funcStack == Funcs(pathStack)
      modifies this
      ensures pathStack == old(pathStack) && funcStack == old(funcStack)
      ensures points == old(points) + PointsOfAll(graph, rank, targets, parent, k, pathStack)
      decreases rank[parent], |kids| - k
    {
      hide Closed, Acyclic, FieldsFit, Children, PointsOf;
      if k < |kids| {
        ChildInGraph(graph, rank, parent, kids[k]);
        Inspect(kids[k], graph, rank);
        InspectAll(kids, k + 1, parent, graph, rank);
      }
    }
  }

  lemma ChildInGraph(graph: set<Node>, rank: map<Node, nat>, n: Node, c: Node)
    requires Closed(graph) && Acyclic(graph, rank) && n in graph && c in ChildrenIn(graph, n)
    ensures c in graph && c in rank && n in rank && rank[c] < rank[n]
  {
    WalkSeqMember(n.fields, n.typ.walk, c);
  }

  /** The points below n in preorder, when the nodes above n are "above". */
  ghost function PointsOf(graph: set<Node>, rank: map<Node, nat>, targets: set<string>, n: Node, above: seq<Node>): seq<Point>
    requires Closed(graph) && Acyclic(graph, rank) && n in graph
    reads graph
    decreases rank[n], |Children(n)| + 1
  {
    (if n.typ.name in targets then [Point(n, above + [n], Top(Funcs(above + [n])))] else [])
    + PointsOfAll(graph, rank, targets, n, 0, above + [n])
  }

  lemma {:induction false} PointsOfHead(graph: set<Node>, rank: map<Node, nat>, targets: set<string>, n: Node, above: seq<Node>)
    requires Closed(graph) && Acyclic(graph, rank) && n in graph
    ensures PointsOf(graph, rank, targets, n, above) ==
      (if n.typ.name in targets then [Point(n, above + [n], Top(Funcs(above + [n])))] else []) + PointsOfAll(graph, rank, targets, n, 0, above + [n])
  {
    hide PointsOfAll, Closed, Acyclic;
  }

  ghost function PointsOfAll(graph: set<Node>, rank: map<Node, nat>, targets: set<string>, n: Node, k: nat, above: seq<Node>): seq<Point>
    requires Closed(graph) && Acyclic(graph, rank) && n in graph && k <= |Children(n)|
    reads graph
    decreases rank[n], |Children(n)| - k
  {
    if k == |Children(n)| then []
    else
      ChildInGraph(graph, rank, n, Children(n)[k]);
      PointsOf(graph, rank, targets, Children(n)[k], above) + PointsOfAll(graph, rank, targets, n, k + 1, above)
  }

  lemma {:induction false} TrailEnd(graph: set<Node>, n: Node, trail: seq<Node>, c: Node)
    requires Closed(graph) && IsTrail(graph, n, trail, c)
    ensures trail != [] && trail[|trail| - 1] == c && c in graph
  {
  }

  lemma {:induction false} TrailTail(graph: set<Node>, n: Node, trail: seq<Node>, c: Node)
    requires Closed(graph) && IsTrail(graph, n, trail, c)
    ensures trail[0] == n && n in graph
    ensures |trail| > 1 ==> trail[1] in ChildrenIn(graph, n) && IsTrail(graph, trail[1], trail[1..], c)
  {
    if |trail| > 1 {
      var m := |trail| - 1;
      TrailTail(graph, n, trail[..m], trail[m - 1]);
      if m > 1 {
        assert trail[1..][..m - 1] == trail[..m][1..];
      }
    }
  }

  lemma {:induction false} TrailCons(graph: set<Node>, n: Node, kid: Node, trail: seq<Node>, c: Node)
    requires Closed(graph) && n in graph && kid in Children(n) && IsTrail(graph, kid, trail, c)
    ensures IsTrail(graph, n, [n] + trail, c)
  {
    var m := |trail|;
    assert ([n] + trail)[..m] == [n] + trail[..m - 1];
    if m > 1 {
      TrailCons(graph, n, kid, trail[..m - 1], trail[m - 2]);
    } else {
      assert ([n] + trail)[..1] == [n];
    }
  }

  /** Soundness: the path of an emitted point is a walk from the file to the node, the node
      has a target type, and "enclosing" is the innermost function declaration on the path. */
  lemma {:induction false} PointsAreTrails(graph: set<Node>, rank: map<Node, nat>, targets: set<string>, n: Node, above: seq<Node>, pt: Point)
    requires Closed(graph) && Acyclic(graph, rank) && n in graph && pt in PointsOf(graph, rank, targets, n, above)
    ensures above <= pt.path && IsTrail(graph, n, pt.path[|above|..], pt.node)
    ensures pt.node.typ.name in targets && pt.enclosing == Top(Funcs(pt.path))
    decreases rank[n], |Children(n)| + 1
  {
    hide Closed, Children, FieldsFit, Acyclic, IsTrail, PointsOfAll;
    if pt in PointsOfAll(graph, rank, targets, n, 0, above + [n]) {
      var kid := PointBelow(graph, rank, targets, n, 0, above + [n], pt);
      TrailCons(graph, n, kid, pt.path[|above| + 1..], pt.node);
      assert pt.path[|above|..] == [n] + pt.path[|above| + 1..];
    } else {
      StartTrail(graph, n);
      assert pt.path[|above|..] == [n];
    }
  }

  lemma {:induction false} PointBelow(graph: set<Node>, rank: map<Node, nat>, targets: set<string>, n: Node, k: nat, above: seq<Node>, pt: Point)
    returns (kid: Node)
    requires Closed(graph) && Acyclic(graph, rank) && n in graph && k <= |Children(n)|
    requires pt in PointsOfAll(graph, rank, targets, n, k, above)
    ensures kid in Children(n) && above <= pt.path && IsTrail(graph, kid, pt.path[|above|..], pt.node)
    ensures pt.node.typ.name in targets && pt.enclosing == Top(Funcs(pt.path))
    decreases rank[n], |Children(n)| - k
  {
    kid := Children(n)[k];
    ChildInGraph(graph, rank, n, kid);
    if pt in PointsOf(graph, rank, targets, kid, above) {
      PointsAreTrails(graph, rank, targets, kid, above, pt);
    } else {
      kid := PointBelow(graph, rank, targets, n, k + 1, above, pt);
    }
  }

  /** Completeness: every walk from the file to a node of a target type is emitted. */
  lemma {:induction false} TrailsArePoints(graph: set<Node>, rank: map<Node, nat>, targets: set<string>, n: Node,
                                           above: seq<Node>, trail: seq<Node>, c: Node)
    requires Closed(graph) && Acyclic(graph, rank) && IsTrail(graph, n, trail, c) && c.typ.name in targets && n in graph
    ensures Point(c, above + trail, Top(Funcs(above + trail))) in PointsOf(graph, rank, targets, n, above)
    decreases |trail|
  {
    hide Closed, Children, FieldsFit, Acyclic, PointsOfAll;
    TrailTail(graph, n, trail, c);
    if |trail| == 1 {
      assert trail == [n];
    } else {
      var k :| 0 <= k < |ChildrenIn(graph, n)| && ChildrenIn(graph, n)[k] == trail[1];
      ChildInGraph(graph, rank, n, trail[1]);
      TrailsArePoints(graph, rank, targets, trail[1], above + [n], trail[1..], c);
      assert above + [n] + trail[1..] == above + trail;
      PointsOfSuffix(graph, rank, targets, n, 0, k, above + [n], Point(c, above + trail, Top(Funcs(above + trail))));
    }
  }

  lemma {:induction false} PointsOfSuffix(graph: set<Node>, rank: map<Node, nat>, targets: set<string>, n: Node, i: nat, k: nat, above: seq<Node>, pt: Point)
    requires Closed(graph) && Acyclic(graph, rank) && n in graph && i <= k < |ChildrenIn(graph, n)| && ChildrenIn(graph, n)[k] in graph
    requires pt in PointsOf(graph, rank, targets, ChildrenIn(graph, n)[k], above)
    ensures pt in PointsOfAll(graph, rank, targets, n, i, above)
    decreases k - i
  {
    hide Closed, FieldsFit, Acyclic, Children, PointsOf;
    if i < k {
      ChildInGraph(graph, rank, n, ChildrenIn(graph, n)[i]);
      PointsOfSuffix(graph, rank, targets, n, i + 1, k, above, pt);
    }
  }
}
