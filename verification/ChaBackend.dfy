/** internal/selection/backend_cha.go: candidate tests over an SSA call graph, which is taken
    as an arbitrary finite graph. */
module ChaBackend {
  import opened Graph
  import opened Resolve
  import opened Select
  import opened Wrappers

  type Fn = nat                                     // identity of an *ssa.Function
  datatype CallEdge = CallEdge(caller: Option<Fn>, callee: Option<Fn>)
  datatype CallNode = CallNode(fn: Option<Fn>, out: seq<Option<CallEdge>>)

  // An edge that the builder does not skip: node, edge, caller and callee are all present.
  ghost predicate HasEdge(nodes: seq<CallNode>, caller: Fn, callee: Fn)
  {
    exists n :: n in nodes && NodeHasEdge(n, n.out, caller, callee)
  }

  ghost predicate NodeHasEdge(n: CallNode, out: seq<Option<CallEdge>>, caller: Fn, callee: Fn)
  {
    n.fn.Some? && Some(CallEdge(Some(caller), Some(callee))) in out
  }

  ghost predicate InReverseSet(reverseSet: map<Fn, set<Fn>>, callee: Fn, caller: Fn)
  {
    callee in reverseSet && caller in reverseSet[callee]
  }

  /** buildReverseFromCallGraph: each caller listed once, whatever the iteration orders. */
  method BuildReverse(nodes: seq<CallNode>) returns (reverse: map<Fn, seq<Fn>>)
    ensures forall callee, caller :: Edge(reverse, callee, caller) <==> HasEdge(nodes, caller, callee)
    ensures forall callee, i, j :: callee in reverse && 0 <= i < j < |reverse[callee]| ==> reverse[callee][i] != reverse[callee][j]
  {
    var reverseSet: map<Fn, set<Fn>> := map[];
    for i := 0 to |nodes|
      invariant forall callee, caller :: InReverseSet(reverseSet, callee, caller) <==> HasEdge(nodes[..i], caller, callee)
    {
      OneMoreNode(nodes[..i], nodes[i]);
      assert nodes[..i + 1] == nodes[..i] + [nodes[i]];
      if nodes[i].fn.None? {
        continue;
      }
      reverseSet := AddEdges(nodes[i], reverseSet);
    }
    assert nodes[..|nodes|] == nodes;
    reverse := map[];
    var left := reverseSet.Keys;
    while left != {}
      invariant left <= reverseSet.Keys && reverse.Keys == reverseSet.Keys - left
      invariant forall callee :: callee in reverse ==> Lists(reverse[callee], reverseSet[callee])
      decreases left
    {
      var callee :| callee in left;
      var callers := SetToSeq(reverseSet[callee]);
      reverse, left := reverse[callee := callers], left - {callee};
    }
  }

  lemma OneMoreNode(nodes: seq<CallNode>, n: CallNode)
    ensures forall caller, callee :: HasEdge(nodes + [n], caller, callee) <==> HasEdge(nodes, caller, callee) || NodeHasEdge(n, n.out, caller, callee)
  {
    hide NodeHasEdge;
    assert forall x :: x in nodes + [n] <==> x in nodes || x == n;
  }

  method AddEdges(n: CallNode, before: map<Fn, set<Fn>>) returns (reverseSet: map<Fn, set<Fn>>)
    requires n.fn.Some?
    ensures forall callee, caller :: InReverseSet(reverseSet, callee, caller) <==> InReverseSet(before, callee, caller) || NodeHasEdge(n, n.out, caller, callee)
  {
    reverseSet := before;
    for j := 0 to |n.out|
      invariant forall callee, caller :: InReverseSet(reverseSet, callee, caller) <==> InReverseSet(before, callee, caller) || NodeHasEdge(n, n.out[..j], caller, callee)
    {
      var edge := n.out[j];
      assert n.out[..j + 1] == n.out[..j] + [edge];
      OneMoreEdge(n, n.out[..j], edge);
      if edge.None? || edge.value.callee.None? || edge.value.caller.None? {
        continue;
      }
      var callee, caller := edge.value.callee.value, edge.value.caller.value;
      ghost var prev := reverseSet;
      reverseSet := reverseSet[callee := (if callee in reverseSet then reverseSet[callee] else {}) + {caller}];
      assert forall x, y :: InReverseSet(reverseSet, x, y) <==> InReverseSet(prev, x, y) || (x == callee && y == caller);
    }
    assert n.out[..|n.out|] == n.out;
  }

  lemma OneMoreEdge(n: CallNode, out: seq<Option<CallEdge>>, edge: Option<CallEdge>)
    requires n.fn.Some?
    ensures forall caller, callee :: NodeHasEdge(n, out + [edge], caller, callee) <==>
      NodeHasEdge(n, out, caller, callee) || edge == Some(CallEdge(Some(caller), Some(callee)))
  {
    assert forall x :: x in out + [edge] <==> x in out || x == edge;
  }

  // The members of a set, each once.
  ghost predicate Lists(list: seq<Fn>, s: set<Fn>)
  {
    && (forall x :: x in list <==> x in s)
    && forall i, j :: 0 <= i < j < |list| ==> list[i] != list[j]
  }

  // Ranging over a Go set visits its members in an unspecified order.
  method SetToSeq(s: set<Fn>) returns (list: seq<Fn>)
    ensures Lists(list, s)
  {
    list := [];
    var left := s;
    while left != {}
      invariant left <= s && Lists(list, s - left)
      decreases left
    {
      var x :| x in left;
      list, left := list + [x], left - {x};
    }
  }

  ghost predicate HasKey(tests: seq<TestRef>, key: Key)
  {
    exists t :: t in tests && KeyOf(t) == key
  }

  ghost predicate Attached(testsByFn: map<Fn, seq<TestRef>>, fns: set<Fn>, key: Key)
  {
    exists fn :: fn in fns && fn in testsByFn && HasKey(testsByFn[fn], key)
  }

  // Some test with this key is attached to a function with a forward path to a seed.
  ghost predicate ReachingKey(seeds: seq<Option<Fn>>, testsByFn: map<Fn, seq<TestRef>>, graph: map<Fn, seq<Fn>>, key: Key)
  {
    exists fn, s :: fn in testsByFn && HasKey(testsByFn[fn], key) && Some(s) in seeds && Reaches(graph, fn, s)
  }

  ghost predicate DistinctKeys(tests: seq<TestRef>)
  {
    forall i, j :: 0 <= i < j < |tests| ==> KeyOf(tests[i]) != KeyOf(tests[j])
  }

  function LiveSeeds(seeds: seq<Option<Fn>>): (r: seq<Fn>)
    ensures forall f :: f in r <==> Some(f) in seeds
  {
    if seeds == [] then []
    else LiveSeeds(seeds[..|seeds| - 1]) + if seeds[|seeds| - 1].None? then [] else [seeds[|seeds| - 1].value]
  }

  /** chaBackend.candidateTests: one test per key, and the keys are exactly those of tests
      attached to a function with a forward path to some seed. The set of keys is therefore
      the same for every iteration order. */
  method CandidateTests(seeds: seq<Option<Fn>>, reverse: map<Fn, seq<Fn>>, testsByFn: map<Fn, seq<TestRef>>, ghost graph: map<Fn, seq<Fn>>)
    returns (out: seq<TestRef>)
    requires Transposed(graph, reverse)
    ensures DistinctKeys(out)
    ensures forall key :: HasKey(out, key) <==> ReachingKey(seeds, testsByFn, graph, key)
    ensures forall t :: t in out ==> exists fn :: fn in testsByFn && t in testsByFn[fn]
  {
    if |seeds| == 0 {
      return [];
    }
    var seenFuncs := Closure(reverse, LiveSeeds(seeds));
    out := [];
    var seenTests: set<Key> := {};
    var left := seenFuncs;
    while left != {}
      invariant left <= seenFuncs && DistinctKeys(out)
      invariant forall t :: t in out ==> exists fn :: fn in testsByFn && t in testsByFn[fn]
      invariant forall key :: key in seenTests <==> HasKey(out, key)
      invariant forall key :: key in seenTests <==> Attached(testsByFn, seenFuncs - left, key)
      decreases left
    {
      var fn :| fn in left;
      var tests := if fn in testsByFn then testsByFn[fn] else [];
      OneMoreFn(testsByFn, seenFuncs - left, fn);
      assert seenFuncs - (left - {fn}) == seenFuncs - left + {fn};
      out, seenTests := AddTests(tests, out, seenTests);
      left := left - {fn};
    }
    assert seenFuncs - left == seenFuncs;
    SeenIsReaching(seeds, reverse, graph, seenFuncs);
  }

  /** The backend built from a call graph: "graph" lists each function's callees. */
  method Candidates(nodes: seq<CallNode>, seeds: seq<Option<Fn>>, testsByFn: map<Fn, seq<TestRef>>, ghost graph: map<Fn, seq<Fn>>)
    returns (out: seq<TestRef>)
    requires forall caller, callee :: Edge(graph, caller, callee) <==> HasEdge(nodes, caller, callee)
    ensures DistinctKeys(out) && forall key :: HasKey(out, key) <==> ReachingKey(seeds, testsByFn, graph, key)
  {
    var reverse := BuildReverse(nodes);
    out := CandidateTests(seeds, reverse, testsByFn, graph);
  }

  lemma {:induction false} SeenIsReaching(seeds: seq<Option<Fn>>, reverse: map<Fn, seq<Fn>>, graph: map<Fn, seq<Fn>>, seen: set<Fn>)
    requires Transposed(graph, reverse) && forall x :: x in seen <==> ReachedFrom(reverse, LiveSeeds(seeds), x)
    ensures forall fn :: fn in seen <==> exists s :: Some(s) in seeds && Reaches(graph, fn, s)
  {
    hide Reaches;
    forall fn, s
      ensures Reaches(reverse, s, fn) <==> Reaches(graph, fn, s)
    {
      BackwardIsForward(graph, reverse, fn, s);
    }
  }

  lemma OneMoreFn(testsByFn: map<Fn, seq<TestRef>>, fns: set<Fn>, fn: Fn)
    ensures forall key :: Attached(testsByFn, fns + {fn}, key) <==>
      Attached(testsByFn, fns, key) || (fn in testsByFn && HasKey(testsByFn[fn], key))
  {
  }

  method AddTests(tests: seq<TestRef>, out0: seq<TestRef>, seen0: set<Key>) returns (out: seq<TestRef>, seen: set<Key>)
    requires DistinctKeys(out0) && forall key :: key in seen0 <==> HasKey(out0, key)
    ensures DistinctKeys(out) && forall key :: key in seen <==> HasKey(out, key)
    ensures forall key :: key in seen <==> key in seen0 || HasKey(tests, key)
    ensures forall t :: t in out ==> t in out0 || t in tests
  {
    out, seen := out0, seen0;
    for i := 0 to |tests|
      invariant DistinctKeys(out) && forall key :: key in seen <==> HasKey(out, key)
      invariant forall key :: key in seen <==> key in seen0 || HasKey(tests[..i], key)
      invariant forall t :: t in out ==> t in out0 || t in tests
    {
      var key := KeyOf(tests[i]);
      assert tests[..i + 1] == tests[..i] + [tests[i]];
      if key in seen {
        continue;
      }
      assert forall t :: t in out ==> KeyOf(t) != key;
      OneMoreTest(out, tests[i]);
      OneMoreTest(tests[..i], tests[i]);
      out, seen := out + [tests[i]], seen + {key};
    }
    assert tests[..|tests|] == tests;
  }

  lemma OneMoreTest(tests: seq<TestRef>, t: TestRef)
    ensures forall key :: HasKey(tests + [t], key) <==> HasKey(tests, key) || key == KeyOf(t)
  {
    assert forall u :: u in tests + [t] <==> u in tests || u == t;
  }
}
