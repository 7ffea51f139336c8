/** Finite directed graphs as adjacency maps: reachability, transposition, and the
    breadth-first closure that internal/selection uses over functions and over packages. */
module Graph {

  predicate Edge<T(==)>(g: map<T, seq<T>>, a: T, b: T)
  {
    a in g && b in g[a]
  }

  ghost predicate IsPath<T>(g: map<T, seq<T>>, path: seq<T>, a: T, b: T)
  {
    && path != [] && path[0] == a
    && if |path| == 1 then a == b else Edge(g, a, path[1]) && IsPath(g, path[1..], path[1], b)
  }

  ghost predicate Reaches<T(!new)>(g: map<T, seq<T>>, a: T, b: T)
  {
    exists path :: IsPath(g, path, a, b)
  }

  // Each node of the path is a step away from the one before.
  ghost predicate IsChain<T>(step: (T, T) -> bool, path: seq<T>, a: T, b: T)
  {
    && path != [] && path[0] == a && path[|path| - 1] == b
    && forall i, j :: 0 <= i && j == i + 1 < |path| ==> step(path[i], path[j])
  }

  ghost predicate Linked<T(!new)>(step: (T, T) -> bool, a: T, b: T)
  {
    exists path :: IsChain(step, path, a, b)
  }

  lemma {:induction false} PathIsChain<T>(g: map<T, seq<T>>, step: (T, T) -> bool, path: seq<T>, a: T, b: T)
    requires forall x, y :: Edge(g, x, y) <==> step(x, y)
    ensures IsPath(g, path, a, b) <==> IsChain(step, path, a, b)
    decreases |path|
  {
    if |path| > 1 {
      var rest := path[1..];
      PathIsChain(g, step, rest, path[1], b);
      if IsChain(step, rest, path[1], b) && path[0] == a && step(a, path[1]) {
        forall i, j | 0 <= i && j == i + 1 < |path| ensures step(path[i], path[j]) {
          if i > 0 { assert path[i] == rest[i - 1] && path[j] == rest[j - 1]; }
        }
      }
      if IsChain(step, path, a, b) {
        assert step(path[0], path[1]);
        forall i, j | 0 <= i && j == i + 1 < |rest| ensures step(rest[i], rest[j]) {
          assert rest[i] == path[i + 1] && rest[j] == path[j + 1];
        }
      }
    }
  }

  /** Reachability by the edges of a graph is linkage by its edge relation. */
  lemma ReachesIsLinked<T(!new)>(g: map<T, seq<T>>, step: (T, T) -> bool, a: T, b: T)
    requires forall x, y :: Edge(g, x, y) <==> step(x, y)
    ensures Reaches(g, a, b) <==> Linked(step, a, b)
  {
    hide IsPath, IsChain;
    forall path ensures IsPath(g, path, a, b) <==> IsChain(step, path, a, b) {
      PathIsChain(g, step, path, a, b);
    }
  }

  lemma ReachesSelf<T(!new)>(g: map<T, seq<T>>, a: T)
    ensures Reaches(g, a, a)
  {
    assert IsPath(g, [a], a, a);
  }

  lemma {:induction false} PathJoin<T>(g: map<T, seq<T>>, p: seq<T>, q: seq<T>, a: T, b: T, c: T)
    requires IsPath(g, p, a, b) && IsPath(g, q, b, c)
    ensures IsPath(g, p + q[1..], a, c)
  {
    if |p| == 1 {
      assert p + q[1..] == q;
    } else {
      PathJoin(g, p[1..], q, p[1], b, c);
      assert (p + q[1..])[1..] == p[1..] + q[1..];
    }
  }

  lemma ReachesEdge<T(!new)>(g: map<T, seq<T>>, a: T, b: T, c: T)
    requires Reaches(g, a, b) && Edge(g, b, c)
    ensures Reaches(g, a, c)
  {
    var p :| IsPath(g, p, a, b);
    assert [b, c][1..] == [c] && IsPath(g, [c], c, c);
    assert IsPath(g, [b, c], b, c);
    PathJoin(g, p, [b, c], a, b, c);
  }

  ghost predicate ClosedUnder<T(!new)>(g: map<T, seq<T>>, s: set<T>)
  {
    forall a, b :: a in s && Edge(g, a, b) ==> b in s
  }

  lemma {:induction false} PathStaysInside<T(!new)>(g: map<T, seq<T>>, s: set<T>, path: seq<T>, a: T, b: T)
    requires ClosedUnder(g, s) && a in s && IsPath(g, path, a, b)
    ensures b in s
  {
    if |path| > 1 {
      PathStaysInside(g, s, path[1..], path[1], b);
    }
  }

  ghost predicate SameEdges<T(!new)>(g: map<T, seq<T>>, h: map<T, seq<T>>)
  {
    forall a, b :: Edge(g, a, b) <==> Edge(h, a, b)
  }

  lemma {:induction false} PathInSameGraph<T(!new)>(g: map<T, seq<T>>, h: map<T, seq<T>>, path: seq<T>, a: T, b: T)
    requires SameEdges(g, h) && IsPath(g, path, a, b)
    ensures IsPath(h, path, a, b)
  {
    if |path| > 1 {
      PathInSameGraph(g, h, path[1..], path[1], b);
    }
  }

  lemma SameReach<T(!new)>(g: map<T, seq<T>>, h: map<T, seq<T>>, a: T, b: T)
    requires SameEdges(g, h)
    ensures Reaches(g, a, b) <==> Reaches(h, a, b)
  {
    if Reaches(g, a, b) {
      var p :| IsPath(g, p, a, b);
      PathInSameGraph(g, h, p, a, b);
    }
    if Reaches(h, a, b) {
      var p :| IsPath(h, p, a, b);
      PathInSameGraph(h, g, p, a, b);
    }
  }

  // r has the edges of g turned round.
  ghost predicate Transposed<T(!new)>(g: map<T, seq<T>>, r: map<T, seq<T>>)
  {
    forall a, b :: Edge(g, a, b) <==> Edge(r, b, a)
  }

  lemma {:induction false} PathTurned<T(!new)>(g: map<T, seq<T>>, r: map<T, seq<T>>, path: seq<T>, a: T, b: T)
    requires Transposed(g, r) && IsPath(g, path, a, b)
    ensures Reaches(r, b, a)
  {
    if |path| == 1 {
      ReachesSelf(r, a);
    } else {
      PathTurned(g, r, path[1..], path[1], b);
      ReachesEdge(r, b, path[1], a);
    }
  }

  /** Searching backwards over the transposed graph is searching forwards. */
  lemma BackwardIsForward<T(!new)>(g: map<T, seq<T>>, r: map<T, seq<T>>, a: T, b: T)
    requires Transposed(g, r)
    ensures Reaches(r, b, a) <==> Reaches(g, a, b)
  {
    if Reaches(g, a, b) {
      var p :| IsPath(g, p, a, b);
      PathTurned(g, r, p, a, b);
    }
    if Reaches(r, b, a) {
      var p :| IsPath(r, p, b, a);
      PathTurned(r, g, p, b, a);
    }
  }

  ghost predicate ReachedFrom<T(!new)>(g: map<T, seq<T>>, seeds: seq<T>, x: T)
  {
    exists s :: s in seeds && Reaches(g, s, x)
  }

  ghost function Nodes<T>(g: map<T, seq<T>>, seeds: seq<T>): set<T>
  {
    (set s | s in seeds) + set a, b | a in g && b in g[a] :: b
  }

  // Marks the nodes of "next" that are new, and queues them in order.
  method AddUnseen<T(==)>(next: seq<T>, seen: set<T>, queue: seq<T>) returns (seen': set<T>, queue': seq<T>)
    ensures seen' == seen + set x | x in next
    ensures forall x :: x in queue' <==> x in queue || (x in next && x !in seen)
    ensures seen' == seen ==> queue' == queue
  {
    seen', queue' := seen, queue;
    for i := 0 to |next|
      invariant seen' == seen + set x | x in next[..i]
      invariant forall x :: x in queue' <==> x in queue || (x in next[..i] && x !in seen)
      invariant seen' == seen ==> queue' == queue
    {
      if next[i] in seen' {
        continue;
      }
      seen', queue' := seen' + {next[i]}, queue' + [next[i]];
    }
  }

  /** Breadth-first search with a queue and a seen set. On any finite graph, cyclic or not,
      it ends with exactly the nodes that some seed reaches. */
  method Closure<T(==, !new)>(g: map<T, seq<T>>, seeds: seq<T>) returns (seen: set<T>)
    ensures forall x :: x in seen <==> ReachedFrom(g, seeds, x)
  {
    hide ReachedFrom;
    var queue;
    seen, queue := AddUnseen(seeds, {}, []);
    SeedsReached(g, seeds);
    while queue != []
      invariant forall x :: x in seeds ==> x in seen
      invariant forall x :: x in seen ==> ReachedFrom(g, seeds, x)
      invariant seen <= Nodes(g, seeds)
      invariant forall x :: x in queue ==> x in seen
      invariant forall a, b :: a in seen && a !in queue && Edge(g, a, b) ==> b in seen
      decreases Nodes(g, seeds) - seen, |queue|
    {
      var cur := queue[0];
      assert queue == [cur] + queue[1..];
      var next := if cur in g then g[cur] else [];
      forall x | x in next ensures ReachedFrom(g, seeds, x) {
        ReachedOn(g, seeds, cur, x);
      }
      ghost var before := seen;
      seen, queue := AddUnseen(next, seen, queue[1..]);
      if seen != before {
        assert Nodes(g, seeds) - seen < Nodes(g, seeds) - before;
      }
    }
    ClosureComplete(g, seeds, seen);
  }

  lemma SeedsReached<T(!new)>(g: map<T, seq<T>>, seeds: seq<T>)
    ensures forall x :: x in seeds ==> ReachedFrom(g, seeds, x)
  {
    forall x | x in seeds ensures ReachedFrom(g, seeds, x) {
      ReachesSelf(g, x);
    }
  }

  lemma ReachedOn<T(!new)>(g: map<T, seq<T>>, seeds: seq<T>, a: T, b: T)
    requires ReachedFrom(g, seeds, a) && Edge(g, a, b)
    ensures ReachedFrom(g, seeds, b)
  {
    var s :| s in seeds && Reaches(g, s, a);
    ReachesEdge(g, s, a, b);
  }

  lemma ClosureComplete<T(!new)>(g: map<T, seq<T>>, seeds: seq<T>, seen: set<T>)
    requires ClosedUnder(g, seen) && forall x :: x in seeds ==> x in seen
    ensures forall x :: ReachedFrom(g, seeds, x) ==> x in seen
  {
    forall x | ReachedFrom(g, seeds, x)
      ensures x in seen
    {
      var s :| s in seeds && Reaches(g, s, x);
      var p :| IsPath(g, p, s, x);
      PathStaysInside(g, seen, p, s, x);
    }
  }
}
