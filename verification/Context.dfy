/** internal/rule/context.go: the clone-to-original map of a rule callback, and how
    prepareRuleInput (engine_run_helpers.go) fills it. */
module Context {
  import opened AstNode
  import DeepCopy
  import SlotCounting

  // Successive look-ups in the map.
  ghost predicate IsChain(m: map<Node, Node>, chain: seq<Node>)
  {
    && chain != []
    && (|chain| > 1 ==>
          var front := chain[..|chain| - 1];
          IsChain(m, front) && front[|front| - 1] in m && chain[|chain| - 1] == m[front[|front| - 1]])
  }

  ghost predicate Distinct(s: seq<Node>)
  {
    forall i, j :: 0 <= i < j < |s| ==> s[i] != s[j]
  }

  /** r is what following the map from "node" gives: the end of the chain, or on a cycle the
      first node that repeats. */
  ghost predicate Resolves(m: map<Node, Node>, node: Node, chain: seq<Node>, r: Node)
  {
    && IsChain(m, chain) && chain[0] == node && chain[|chain| - 1] == r
    && Distinct(chain[..|chain| - 1])
    && (r in chain[..|chain| - 1] || r !in m)
  }

  lemma {:induction false} ChainPrefix(m: map<Node, Node>, c: seq<Node>, k: nat)
    requires IsChain(m, c) && 0 < k <= |c|
    ensures IsChain(m, c[..k]) && c[..k][0] == c[0] && (k < |c| ==> c[k - 1] in m && c[k] == m[c[k - 1]])
  {
    if k < |c| {
      if k < |c| - 1 {
        ChainPrefix(m, c[..|c| - 1], k);
        assert c[..|c| - 1][..k] == c[..k];
      }
    } else {
      assert c[..k] == c;
    }
  }

  lemma {:induction false} ChainsAgree(m: map<Node, Node>, c: seq<Node>, d: seq<Node>, k: nat)
    requires IsChain(m, c) && IsChain(m, d) && c[0] == d[0] && k < |c| && k < |d|
    ensures c[..k + 1] == d[..k + 1]
  {
    if k > 0 {
      ChainsAgree(m, c, d, k - 1);
      assert c[k - 1] == c[..k][k - 1] == d[..k][k - 1];
      ChainPrefix(m, c, k);
      ChainPrefix(m, d, k);
      assert c[..k + 1] == c[..k] + [c[k]] && d[..k + 1] == d[..k] + [d[k]];
    } else {
      assert c[..1] == [c[0]] && d[..1] == [d[0]];
    }
  }

  /** The specification picks out one node. */
  lemma ResolvesUnique(m: map<Node, Node>, node: Node, c: seq<Node>, r: Node, d: seq<Node>, q: Node)
    requires Resolves(m, node, c, r) && Resolves(m, node, d, q)
    ensures c == d && r == q
  {
    if |c| <= |d| {
      NoLongerChain(m, node, c, r, d, q);
    } else {
      NoLongerChain(m, node, d, q, c, r);
    }
  }

  lemma NoLongerChain(m: map<Node, Node>, node: Node, c: seq<Node>, r: Node, d: seq<Node>, q: Node)
    requires Resolves(m, node, c, r) && Resolves(m, node, d, q) && |c| <= |d|
    ensures c == d
  {
    ChainsAgree(m, c, d, |c| - 1);
    assert c[..|c|] == c;
    if |c| < |d| {
      ChainPrefix(m, d, |c|);
      LaterDiffers(c, d);
    } else {
      assert d[..|d|] == d;
    }
  }

  // In a longer chain without repetition the end of the shorter one is no repeat either.
  lemma LaterDiffers(c: seq<Node>, d: seq<Node>)
    requires 0 < |c| < |d| && d[..|c|] == c && Distinct(d[..|d| - 1])
    ensures c[|c| - 1] !in c[..|c| - 1] && d[|c| - 1] == c[|c| - 1]
  {
    assert c[|c| - 1] == d[|c| - 1];
    forall i | 0 <= i < |c| - 1
      ensures c[i] != c[|c| - 1]
    {
      assert c[i] == d[i] == d[..|d| - 1][i] && d[|c| - 1] == d[..|d| - 1][|c| - 1];
    }
  }

  class Context {
    var cloneMap: map<Node, Node>

    constructor ()
      ensures cloneMap == map[]
    {
      cloneMap := map[];
    }

    method SetOriginal(clone: Node?, original: Node?)
      modifies this
      ensures cloneMap == if clone == null || original == null then old(cloneMap) else old(cloneMap)[clone := original]
    {
      if clone == null || original == null {
        return;
      }
      cloneMap := cloneMap[clone := original];
    }

    /** Terminates whatever SetOriginal calls came before. */
    method Original(node: Node?) returns (r: Node?, ghost chain: seq<Node>)
      ensures node == null <==> r == null
      ensures node != null ==> Resolves(cloneMap, node, chain, r)
    {
      chain := [];
      if node == null {
        return null, chain;
      }
      var current: Node := node;
      var seen: set<Node> := {};
      chain := [current];
      while true
        invariant IsChain(cloneMap, chain) && chain[0] == node && chain[|chain| - 1] == current
        invariant Distinct(chain[..|chain| - 1])
        invariant forall n :: n in seen <==> n in chain[..|chain| - 1]
        decreases cloneMap.Keys - seen
      {
        if current in seen {
          return current, chain;
        }
        ghost var before := chain;
        seen := seen + {current};
        if current !in cloneMap {
          return current, chain;
        }
        current := cloneMap[current];
        chain := chain + [current];
        assert chain[..|chain| - 1] == before == before[..|before| - 1] + [before[|before| - 1]];
      }
    }

    // Ranging over a clone map records its entries in an unspecified order.
    method SetAll(origins: map<Node, Node>)
      modifies this
      ensures cloneMap == old(cloneMap) + origins
    {
      var left := origins.Keys;
      while left != {}
        invariant left <= origins.Keys
        invariant cloneMap == old(cloneMap) + map c | c in origins && c !in left :: origins[c]
        decreases left
      {
        var c :| c in left;
        SetOriginal(c, origins[c]);
        left := left - {c};
      }
      assert (map c | c in origins && c !in left :: origins[c]) == origins;
    }
  }

  // Every recorded clone leads to its own original in one step.
  ghost predicate Flat(m: map<Node, Node>)
  {
    forall c :: c in m ==> m[c] !in m
  }

  lemma FlatResolves(m: map<Node, Node>, c: Node, chain: seq<Node>, r: Node)
    requires Flat(m) && c in m && Resolves(m, c, chain, r)
    ensures r == m[c]
  {
    var d := [c, m[c]];
    assert d[..1] == [c] && IsChain(m, [c]);
    ResolvesUnique(m, c, chain, r, d, m[c]);
  }

  method PrepareDeep(node: Node, ctx: Context, ghost graph: set<Node>)
    returns (input: Node?, failed: bool, ghost memo: map<Node, Node>)
    requires DeepCopy.Closed(graph) && node in graph && ctx.cloneMap == map[]
    modifies ctx
    ensures failed <==> exists p :: p in graph && old(DeepCopy.BadNode(graph, node, p))
    ensures failed ==> ctx.cloneMap == map[]
    ensures !failed ==> input != null && fresh(input) && Flat(ctx.cloneMap)
    ensures !failed ==> node in memo && memo[node] == input && DeepCopy.Inverse(memo, ctx.cloneMap)
    ensures !failed ==> forall p :: p in graph ==> (p in memo <==> old(DeepCopy.Reachable(graph, node, p)))
  {
    hide DeepCopy.Closed, DeepCopy.Reachable, DeepCopy.BadNode, DeepCopy.Inverse, Flat, DeepCopy.CopyOf;
    hide SlotCounting.WalkedCloned, SlotCounting.Faithful, SlotCounting.ShadowFree;
    var origins: map<Node, Node>;
    var err;
    input, origins, err, memo := DeepCopy.DeepCopyNode(node, graph);
    if err.Some? {
      return null, true, memo;
    }
    CopyFacts(graph, node, memo, origins);
    assert memo[node] in memo.Values;
    ctx.SetAll(origins);
    assert map[] + origins == origins;
    failed := false;
  }

  /** prepareRuleInput on a new context. In both copy modes, when the callback starts, every
      recorded clone resolves to its own counterpart, and the callback's input resolves to
      the matched node. A deep copy records exactly the nodes reachable from the match. */
  method PrepareRuleInput(deepCopy: bool, node: Node, ctx: Context, ghost graph: set<Node>)
    returns (input: Node?, failed: bool, ghost memo: map<Node, Node>)
    requires DeepCopy.Closed(graph) && node in graph && ctx.cloneMap == map[]
    modifies ctx
    ensures deepCopy ==> (failed <==> exists p :: p in graph && old(DeepCopy.BadNode(graph, node, p)))
    ensures failed ==> ctx.cloneMap == map[]
    ensures !failed ==> input != null && fresh(input)
    ensures !failed ==> forall c, chain, r :: c in ctx.cloneMap && Resolves(ctx.cloneMap, c, chain, r) ==> r == ctx.cloneMap[c]
    ensures !failed ==> node in memo && memo[node] == input && DeepCopy.Inverse(memo, ctx.cloneMap)
    ensures !failed && deepCopy ==> forall p :: p in graph ==> (p in memo <==> old(DeepCopy.Reachable(graph, node, p)))
    ensures !deepCopy ==> (failed <==> !node.typ.supported) && (!failed ==> memo == map[node := input])
  {
    hide DeepCopy.Closed, DeepCopy.Reachable, DeepCopy.BadNode, Resolves;
    if deepCopy {
      input, failed, memo := PrepareDeep(node, ctx, graph);
    } else {
      memo := map[];
      input := ShallowCopy(node);
      if input == null {
        return null, true, memo;
      }
      memo := map[node := input];
      ctx.SetOriginal(input, node);
      failed := false;
    }
    if !failed {
      forall c, chain, r | c in ctx.cloneMap && Resolves(ctx.cloneMap, c, chain, r)
        ensures r == ctx.cloneMap[c]
      {
        FlatResolves(ctx.cloneMap, c, chain, r);
      }
    }
  }

  lemma CopyFacts(graph: set<Node>, root: Node, memo: map<Node, Node>, origins: map<Node, Node>)
    requires DeepCopy.Closed(graph) && DeepCopy.CopyOf(graph, root, memo) && DeepCopy.Inverse(memo, origins)
    ensures Flat(origins)
    ensures forall p :: p in graph ==> (p in memo <==> DeepCopy.Reachable(graph, root, p))
  {
    forall c | c in origins
      ensures origins[c] !in origins
    {
      var p :| p in memo && memo[p] == c;
      assert origins[c] == p && p in graph;
    }
  }
}
