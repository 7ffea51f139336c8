/** astclone.DeepCopyNode: a memoised copy of a node graph that may share nodes or
    contain cycles. The walk is ast.PreorderStack, whose callback is Copier.Visit. */
module DeepCopy {
  import opened AstNode
  import opened Wrappers
  import opened SlotCounting

  datatype CopyError = NilNode | Unsupported(typeName: string) | MissingParentClone | ReplaceFailed | RootMissing

  // "graph" is a finite set of nodes, well typed and closed under child slots.
  ghost predicate Closed(graph: set<Node>)
    reads graph
  {
    forall n :: n in graph ==>
      && n.typ.Valid()
      && FieldsFit(n.typ, n.fields)
      && forall i, j :: 0 <= i < |n.fields| && 0 <= j < |n.fields[i]| && n.fields[i][j] != null ==> n.fields[i][j] in graph
  }

  function Children(n: Node): seq<Node>
    reads n
    requires n.typ.Valid() && FieldsFit(n.typ, n.fields)
  {
    WalkSeq(n.fields, n.typ.walk)
  }

  // A walk from "source" to "sink": each node is a walked child of the one before.
  ghost predicate IsTrail(graph: set<Node>, source: Node, older trail: seq<Node>, sink: Node)
    requires Closed(graph)
    reads graph
  {
    && trail != []
    && trail[|trail| - 1] == sink
    && sink in graph
    && if |trail| == 1 then sink == source
       else
         var parent := trail[|trail| - 2];
         && IsTrail(graph, source, trail[..|trail| - 1], parent)
         && sink in Children(parent)
  }

  ghost predicate Reachable(graph: set<Node>, source: Node, sink: Node)
    requires Closed(graph)
    reads graph
  {
    exists trail: seq<Node> :: IsTrail(graph, source, trail, sink)
  }

  /** The table is a one-to-one map from the reachable originals to copies with the same
      type and contents. */
  ghost predicate Copied(graph: set<Node>, memo: map<Node, Node>)
  {
    && memo.Keys <= graph
    && OneToOne(memo)
    && (forall p :: p in memo ==> memo[p] !in graph)
    && (forall p :: p in memo ==> p.typ.supported && memo[p].typ == p.typ && memo[p].data == p.data)
  }

  // Every recorded clone stands in the counted relation to its original.
  ghost predicate AllPatched(memo: map<Node, Node>, visits: map<Node, multiset<Node>>)
    reads memo.Keys, memo.Values
  {
    && visits.Keys == memo.Keys
    && forall p :: p in memo ==> Patched(p.fields, memo[p].fields, memo, visits[p])
  }

  // How each original was reached from the root.
  ghost predicate AllReached(graph: set<Node>, root: Node, trails: map<Node, seq<Node>>)
    requires Closed(graph)
    reads graph
  {
    forall p :: p in trails ==> IsTrail(graph, root, trails[p], p)
  }

  lemma ClonesDiffer(graph: set<Node>, memo: map<Node, Node>)
    requires Copied(graph, memo)
    ensures forall p, q :: p in memo && q in memo && p != q ==> memo[p] != memo[q]
    ensures forall p, q :: p in memo && q in memo ==> p != memo[q]
    ensures forall p :: p in memo ==> memo[p] !in graph
  {
  }

  lemma GraphSeparate(graph: set<Node>, memo: map<Node, Node>, p: Node)
    requires Closed(graph) && Copied(graph, memo) && p in graph
    ensures Separate(p.fields, memo)
  {
    forall i | 0 <= i < |p.fields|
      ensures RowSeparate(p.fields[i], memo)
    {
      assert forall c: Node :: c in memo.Values ==> c !in graph;
    }
  }

  lemma NotAChild(graph: set<Node>, p: Node, d: Node)
    requires Closed(graph) && p in graph && d !in graph
    ensures forall i :: 0 <= i < |p.fields| ==> d !in p.fields[i]
  {
  }

  lemma {:induction false} ReachedGrows(graph: set<Node>, root: Node, trails: map<Node, seq<Node>>, c: Node, trail: seq<Node>)
    requires Closed(graph) && AllReached(graph, root, trails) && IsTrail(graph, root, trail, c)
    ensures AllReached(graph, root, trails[c := trail])
  {
  }

  lemma TableGrows(graph: set<Node>, memo: map<Node, Node>, c: Node, d: Node)
    requires Closed(graph) && Copied(graph, memo)
    requires c in graph && c !in memo && d !in graph && d !in memo.Values
    requires c.typ.supported && d.typ == c.typ && d.data == c.data
    ensures Copied(graph, memo[c := d])
  {
    var memo' := memo[c := d];
    assert forall a :: a in memo ==> memo[a] in memo.Values;
    forall a | a in memo' ensures a !in memo'.Values {
      assert a in graph;
    }
  }

  lemma AllPatchedGrows(graph: set<Node>, memo: map<Node, Node>, visits: map<Node, multiset<Node>>, c: Node, d: Node)
    requires Closed(graph) && Copied(graph, memo) && Copied(graph, memo[c := d]) && AllPatched(memo, visits)
    requires c in graph && c !in memo && d !in graph && d !in memo.Values
    requires d.fields == c.fields
    ensures AllPatched(memo[c := d], visits[c := multiset{}])
  {
    hide Patched, OneToOne, Separate, FieldsFit;
    var memo' := memo[c := d];
    forall p | p in memo'
      ensures Patched(p.fields, memo'[p].fields, memo', visits[c := multiset{}][p])
    {
      GraphSeparate(graph, memo', p);
      if p == c {
        FreshlyCopied(c.fields, memo');
      } else {
        NotAChild(graph, p, d);
        MemoGrows(p.fields, memo[p].fields, memo, visits[p], c, d);
      }
    }
  }

  ghost function Bump(visits: map<Node, multiset<Node>>, p: Node, c: Node): map<Node, multiset<Node>>
  {
    if p in visits then visits[p := visits[p] + multiset{c}] else visits
  }

  // The walk still has a visit of c under p ahead of it.
  ghost predicate Due(graph: set<Node>, visits: map<Node, multiset<Node>>, p: Node, c: Node)
    requires Closed(graph)
    reads graph
  {
    p in graph && p in visits && visits[p][c] < multiset(Children(p))[c]
  }

  lemma ParentFits(graph: set<Node>, memo: map<Node, Node>, visits: map<Node, multiset<Node>>, p: Node)
    requires Closed(graph) && Copied(graph, memo) && AllPatched(memo, visits) && p in memo
    ensures FieldsFit(memo[p].typ, memo[p].fields)
  {
    PatchedFits(p.typ, p.fields, memo[p].fields, memo, visits[p]);
  }

  lemma DueHit(graph: set<Node>, memo: map<Node, Node>, visits: map<Node, multiset<Node>>, p: Node, c: Node)
    requires Closed(graph) && Copied(graph, memo) && AllPatched(memo, visits) && p in memo && c in memo
    ensures Due(graph, visits, p, c) ==> exists f :: Hit(memo[p].typ, memo[p].fields, f, c, memo[c])
  {
    if Due(graph, visits, p, c) {
      GraphSeparate(graph, memo, p);
      ParentFits(graph, memo, visits, p);
      PatchPossible(p.typ, p.fields, memo[p].fields, memo, visits[p], c);
      var f :| 0 <= f < |memo[p].fields| && c in memo[p].fields[f];
      assert ItemsFit(p.typ.specs[f], memo[p].fields[f]);
      assert Hit(memo[p].typ, memo[p].fields, f, c, memo[c]);
    }
  }

  lemma ParentPatched(graph: set<Node>, memo: map<Node, Node>, visits: multiset<Node>, p: Node, c: Node,
                      now: Fields, after: Fields, i: nat, j: nat)
    requires Closed(graph) && Copied(graph, memo) && p in memo && c in memo
    requires Patched(p.fields, now, memo, visits)
    requires Replaced(p.typ, now, after, i, j, c, memo[c])
    ensures Patched(p.fields, after, memo, visits + multiset{c})
  {
    GraphSeparate(graph, memo, p);
    PatchedFits(p.typ, p.fields, now, memo, visits);
    forall f | 0 <= f < i
      ensures c !in now[f]
    {
      assert !Hit(p.typ, now, f, c, memo[c]);
      assert ItemsFit(p.typ.specs[f], now[f]);
    }
    PatchStep(p.typ, p.fields, now, after, memo, visits, i, j, c);
  }

  ghost predicate Inverse(memo: map<Node, Node>, origins: map<Node, Node>)
  {
    && origins.Keys == memo.Values
    && forall p :: p in memo ==> origins[memo[p]] == p
  }

  lemma InverseGrows(memo: map<Node, Node>, origins: map<Node, Node>, c: Node, d: Node)
    requires Inverse(memo, origins) && c !in memo && d !in memo.Values
    ensures Inverse(memo[c := d], origins[d := c])
  {
    var memo' := memo[c := d];
    assert memo'[c] in memo'.Values;
    assert forall a :: a in memo ==> memo'[a] == memo[a] && memo'[a] in memo'.Values;
    assert memo'.Values == memo.Values + {d};
  }

  // The tables of the copier agree with each other and with the clones' fields.
  ghost predicate Consistent(graph: set<Node>, root: Node, memo: map<Node, Node>, origins: map<Node, Node>,
                             visits: map<Node, multiset<Node>>, trails: map<Node, seq<Node>>)
    reads graph, memo.Keys, memo.Values
  {
    && Closed(graph) && root in graph
    && Copied(graph, memo) && Inverse(memo, origins)
    && visits.Keys == trails.Keys == memo.Keys
    && AllPatched(memo, visits) && AllReached(graph, root, trails)
  }

  lemma {:induction false} TablesGrow(graph: set<Node>, root: Node, memo: map<Node, Node>, origins: map<Node, Node>,
                   visits: map<Node, multiset<Node>>, trails: map<Node, seq<Node>>, c: Node, d: Node, trail: seq<Node>)
    requires Consistent(graph, root, memo, origins, visits, trails) && IsTrail(graph, root, trail, c)
    requires c in graph && c !in memo && c.typ.supported && d !in graph && d !in memo.Values
    requires d.typ == c.typ && d.data == c.data && d.fields == c.fields
    ensures Consistent(graph, root, memo[c := d], origins[d := c], visits[c := multiset{}], trails[c := trail])
  {
    hide Closed, Copied, AllPatched, Inverse, IsTrail, FieldsFit, AllReached;
    ReachedGrows(graph, root, trails, c, trail);
    TableGrows(graph, memo, c, d);
    AllPatchedGrows(graph, memo, visits, c, d);
    InverseGrows(memo, origins, c, d);
  }

  class Copier {
    var cloneToOriginal: map<Node, Node>
    var originalToClone: map<Node, Node>
    var rootClone: Node?
    var walkErr: Option<CopyError>

    ghost const graph: set<Node>
    ghost const root: Node
    ghost var visits: map<Node, multiset<Node>>   // per parent: the children visited so far
    ghost var trails: map<Node, seq<Node>>        // how each original was reached

    constructor (root: Node, ghost graph: set<Node>)
      requires Closed(graph) && root in graph
      ensures Valid() && this.root == root && this.graph == graph
      ensures originalToClone == map[] && walkErr == None && rootClone == null
    {
      cloneToOriginal, originalToClone := map[], map[];
      rootClone, walkErr := null, None;
      visits, trails := map[], map[];
      this.root, this.graph := root, graph;
    }

    ghost predicate Valid()
      reads this, graph, originalToClone.Keys, originalToClone.Values
    {
      Consistent(graph, root, originalToClone, cloneToOriginal, visits, trails)
    }

    // All walked children of p have been visited.
    ghost predicate Done(p: Node)
      reads this, p
    {
      p.typ.Valid() && FieldsFit(p.typ, p.fields) && p in visits && visits[p] == multiset(Children(p))
    }

    method Fail(e: CopyError)
      requires Valid()
      modifies this`walkErr
      ensures Valid() && walkErr == Some(e)
    {
      hide Consistent;
      walkErr := Some(e);
    }

    method SetRoot(clone: Node)
      requires Valid()
      modifies this`rootClone
      ensures Valid() && rootClone == clone
    {
      hide Consistent;
      rootClone := clone;
    }

    lemma Known()
      requires Valid()
      ensures Closed(graph) && visits.Keys == originalToClone.Keys <= graph && originalToClone.Values !! graph
    {
    }

    // Enters one new clone into both tables.
    method Record(current: Node, cloned: Node, ghost trail: seq<Node>)
      requires Valid() && IsTrail(graph, root, trail, current)
      requires current in graph && current !in originalToClone && current.typ.supported
      requires cloned !in graph && cloned !in originalToClone.Values
      requires cloned.typ == current.typ && cloned.data == current.data && cloned.fields == current.fields
      modifies this`cloneToOriginal, this`originalToClone, this`visits, this`trails
      ensures Valid()
      ensures originalToClone == old(originalToClone)[current := cloned]
      ensures visits == old(visits)[current := multiset{}]
    {
      hide Consistent, Closed, IsTrail;
      TablesGrow(graph, root, originalToClone, cloneToOriginal, visits, trails, current, cloned, trail);
      originalToClone := originalToClone[current := cloned];
      cloneToOriginal := cloneToOriginal[cloned := current];
      visits := visits[current := multiset{}];
      trails := trails[current := trail];
    }

    /** The lookup-or-copy half of the callback. */
    method CloneOnce(current: Node, ghost trail: seq<Node>) returns (cloned: Node?, seen: bool)
      requires Valid() && IsTrail(graph, root, trail, current)
      modifies this`cloneToOriginal, this`originalToClone, this`walkErr, this`visits, this`trails
      ensures Valid()
      ensures seen <==> current in old(originalToClone)
      ensures cloned == null <==> !seen && !current.typ.supported
      ensures cloned == null ==> walkErr == Some(Unsupported(current.typ.name)) && originalToClone == old(originalToClone) && visits == old(visits)
      ensures cloned != null ==> walkErr == old(walkErr) && current in originalToClone && cloned == originalToClone[current]
      ensures seen ==> originalToClone == old(originalToClone) && visits == old(visits)
      ensures !seen && cloned != null ==> fresh(cloned) && originalToClone == old(originalToClone)[current := cloned] && visits == old(visits)[current := multiset{}]
    {
      hide Valid, Closed;
      Known();
      seen := current in originalToClone;
      if seen {
        return originalToClone[current], seen;
      }
      cloned := ShallowCopy(current);
      if cloned == null {
        Fail(Unsupported(current.typ.name));
        return;
      }
      Record(current, cloned, trail);
    }

    // replaceChild on the parent's clone keeps the counted relation to the parent.
    method PatchClone(parentOrig: Node, parentClone: Node, current: Node) returns (ok: bool)
      requires Valid() && parentOrig in originalToClone && current in originalToClone
      requires parentClone == originalToClone[parentOrig]
      modifies parentClone`fields
      ensures Patched(parentOrig.fields, parentClone.fields, originalToClone,
                      if ok then visits[parentOrig] + multiset{current} else visits[parentOrig])
      ensures !ok ==> parentClone.fields == old(parentClone.fields)
      ensures Due(graph, visits, parentOrig, current) ==> ok
    {
      hide Closed, Inverse, AllReached, Patched, FieldsFit, Replaced, Hit, Due;
      ParentFits(graph, originalToClone, visits, parentOrig);
      DueHit(graph, originalToClone, visits, parentOrig, current);
      ghost var now, i: nat, j: nat := parentClone.fields, 0, 0;
      ok, i, j := parentClone.ReplaceChild(current, originalToClone[current]);
      assert parentOrig.fields == old(parentOrig.fields);
      if ok {
        ParentPatched(graph, originalToClone, visits[parentOrig], parentOrig, current, now, parentClone.fields, i, j);
      }
    }

    // The other clones are not touched.
    method PatchOne(parentOrig: Node, current: Node) returns (ok: bool, ghost counted: map<Node, multiset<Node>>)
      requires Valid() && parentOrig in originalToClone && current in originalToClone
      modifies originalToClone.Values
      ensures counted == if ok then Bump(visits, parentOrig, current) else visits
      ensures Closed(graph) && AllReached(graph, root, trails) && AllPatched(originalToClone, counted)
      ensures old(Due(graph, visits, parentOrig, current)) ==> ok
    {
      hide Closed, Inverse, AllReached, Patched, FieldsFit, Due, IsTrail, Copied;
      ClonesDiffer(graph, originalToClone);
      ok := PatchClone(parentOrig, originalToClone[parentOrig], current);
      counted := if ok then Bump(visits, parentOrig, current) else visits;
      forall q | q in originalToClone
        ensures Patched(q.fields, originalToClone[q].fields, originalToClone, counted[q])
      {
        if q != parentOrig {
          assert originalToClone[q].fields == old(originalToClone[q].fields);
        }
      }
    }

    /** The patching half of the callback: the parent's clone gets the child's clone. */
    method PatchParent(parentOrig: Node, current: Node) returns (ok: bool)
      requires Valid() && parentOrig in originalToClone && current in originalToClone
      modifies this`visits, originalToClone.Values
      ensures Valid()
      ensures visits == if ok then Bump(old(visits), parentOrig, current) else old(visits)
      ensures old(Due(graph, visits, parentOrig, current)) ==> ok
    {
      hide Closed, Inverse, AllReached, Due, Copied, AllPatched;
      ghost var counted;
      ok, counted := PatchOne(parentOrig, current);
      visits := counted;
    }

    // An error is always about a reachable node that shallowCopy has no case for.
    ghost predicate ErrorExplained()
      requires Closed(graph)
      reads this, graph
    {
      walkErr.Some? ==> exists p :: p in graph && BadNode(graph, root, p) && walkErr == Some(Unsupported(p.typ.name))
    }

    method Outcome() returns (clone: Node?, origins: map<Node, Node>, err: Option<CopyError>)
      ensures err == if walkErr.Some? then walkErr else if rootClone == null then Some(RootMissing) else None
      ensures err.None? ==> clone == rootClone && origins == cloneToOriginal
    {
      if walkErr.Some? {
        return null, map[], walkErr;
      }
      if rootClone == null {
        return null, map[], Some(RootMissing);
      }
      return rootClone, cloneToOriginal, None;
    }

    // The callback after the copy: make it the root, or hand it to the parent's clone.
    method Attach(current: Node, stack: seq<Node>) returns (ok: bool)
      requires Valid() && walkErr.None? && current in originalToClone
      modifies this`rootClone, this`walkErr, this`visits, originalToClone.Values
      ensures Valid()
      ensures ok <==> walkErr.None?
      ensures ok ==> visits == if stack == [] then old(visits) else Bump(old(visits), stack[|stack| - 1], current)
      ensures rootClone == if stack == [] then originalToClone[current] else old(rootClone)
      ensures old(DueUnder(graph, visits, stack, current)) ==> ok
    {
      hide Valid, Closed, Due, Bump;
      Known();
      if |stack| == 0 {
        SetRoot(originalToClone[current]);
        return true;
      }
      var parentOrig := stack[|stack| - 1];
      if parentOrig !in originalToClone {
        Fail(MissingParentClone);
        return false;
      }
      ok := PatchParent(parentOrig, current);
      if !ok {
        Fail(ReplaceFailed);
      }
    }

    /** The callback of the preorder walk; the result says whether to descend. */
    method Visit(current: Node, stack: seq<Node>) returns (descend: bool)
      requires Valid() && ErrorExplained() && IsTrail(graph, root, stack + [current], current)
      modifies this, originalToClone.Values
      ensures Valid() && (forall d :: d in originalToClone.Values ==> d in old(originalToClone.Values) || fresh(d))
      ensures old(walkErr).Some? ==> walkErr == old(walkErr)
      ensures Grew(old(originalToClone), originalToClone)
      ensures walkErr.Some? ==> !descend
      ensures walkErr.None? ==> old(walkErr).None? && current in originalToClone && (descend <==> current !in old(originalToClone))
      ensures walkErr.None? ==> originalToClone.Keys == old(originalToClone.Keys) + {current}
      ensures walkErr.None? ==> visits == Counted(old(visits), stack, current)
      ensures walkErr.None? ==> rootClone == if stack == [] then originalToClone[current] else old(rootClone)
      ensures old(walkErr).Some? || old(DueUnder(graph, visits, stack, current)) ==> ErrorExplained()
    {
      hide Valid, Closed, IsTrail, Children, Bump, Reachable, DueUnder, Grew;
      Known();
      GrewOn(originalToClone, originalToClone, originalToClone);
      if walkErr.Some? {
        return false;
      }
      var cloned, seen := CloneOnce(current, stack + [current]);
      NewEntryGrows(old(originalToClone), originalToClone, current);
      if cloned == null {
        TrailReaches(graph, root, stack + [current], current);
        return false;
      }
      DueKept(graph, old(visits), visits, stack, current);
      var ok := Attach(current, stack);
      descend := ok && !seen;
    }

    /** ast.PreorderStack: the callback, then the children in source order. A node that
        was seen before is not entered again, so cycles end. */
    method Walk(current: Node, stack: seq<Node>)
      requires Valid() && ErrorExplained() && IsTrail(graph, root, stack + [current], current)
      requires walkErr.None? ==> DueUnder(graph, visits, stack, current)
      modifies this, originalToClone.Values
      ensures Valid() && ErrorExplained()
      ensures (forall d :: d in originalToClone.Values ==> d in old(originalToClone.Values) || fresh(d))
      ensures Grew(old(originalToClone), originalToClone)
      ensures old(walkErr).Some? ==> walkErr == old(walkErr)
      ensures walkErr.None? ==> current in visits && Progress(graph, old(visits), visits, Top(stack), multiset{current})
      ensures walkErr.None? ==> rootClone == if stack == [] then originalToClone[current] else old(rootClone)
      decreases graph - originalToClone.Keys, 0, 0
    {
      hide Valid, Closed, IsTrail, Reachable, WalkSeq, BadNode, Progress, Due, DueUnder, Grew, ErrorExplained, Counted;
      Known();
      var descend := Visit(current, stack);
      Known();
      if descend {
        assert graph - originalToClone.Keys < graph - old(originalToClone.Keys) by {
          assert current in graph - old(originalToClone.Keys);
        }
        ghost var between, table := visits, originalToClone;
        EnterStep(graph, old(visits), stack, current);
        Descend(current, stack);
        GrewOn(old(originalToClone), table, originalToClone);
        GrewOn(table, originalToClone, originalToClone);
        if walkErr.None? {
          EnterThenKids(graph, old(visits), between, visits, stack, current);
        }
      } else if walkErr.None? {
        SeenStep(graph, old(visits), visits, stack, current);
      }
    }

    // All children of a node that has just been copied.
    method Descend(current: Node, stack: seq<Node>)
      requires Valid() && ErrorExplained() && IsTrail(graph, root, stack + [current], current)
      requires current in graph && current in visits && visits[current] == multiset{}
      modifies this, originalToClone.Values
      ensures Valid() && ErrorExplained()
      ensures forall d :: d in originalToClone.Values ==> d in old(originalToClone.Values) || fresh(d)
      ensures Grew(old(originalToClone), originalToClone)
      ensures old(walkErr).Some? ==> walkErr == old(walkErr)
      ensures walkErr.None? ==> Progress(graph, old(visits), visits, current, multiset(ChildrenIn(graph, current)))
      ensures walkErr.None? ==> rootClone == old(rootClone)
      decreases graph - originalToClone.Keys, 3, 0
    {
      hide Valid, Closed, IsTrail, Reachable, WalkSeq, BadNode, Progress, Due, Grew, ErrorExplained;
      Known();
      KidsStart(graph, visits, current);
      WalkKids(current, stack, Children(current), 0, visits);
    }

    // The children of current from position k on.
    method WalkKids(current: Node, stack: seq<Node>, kids: seq<Node>, k: nat, ghost start: map<Node, multiset<Node>>)
      requires Valid() && ErrorExplained() && IsTrail(graph, root, stack + [current], current)
      requires current in graph && kids == ChildrenIn(graph, current) && k <= |kids|
      requires current in start && start[current] == multiset{}
      requires walkErr.None? ==> Progress(graph, start, visits, current, multiset(kids[..k]))
      modifies this, originalToClone.Values
      ensures Valid() && ErrorExplained()
      ensures forall d :: d in originalToClone.Values ==> d in old(originalToClone.Values) || fresh(d)
      ensures Grew(old(originalToClone), originalToClone)
      ensures old(walkErr).Some? ==> walkErr == old(walkErr)
      ensures walkErr.None? ==> Progress(graph, start, visits, current, multiset(ChildrenIn(graph, current)))
      ensures walkErr.None? ==> rootClone == old(rootClone)
      decreases graph - originalToClone.Keys, 2, |kids| - k
    {
      hide Valid, Closed, IsTrail, Reachable, Children, BadNode, Progress, Due, Grew, ErrorExplained, FieldsFit;
      if k == |kids| {
        assert kids[..k] == kids;
        GrewOn(originalToClone, originalToClone, originalToClone);
        return;
      }
      ghost var table := originalToClone;
      WalkKid(current, stack, kids, k, start);
      GrewOn(table, originalToClone, originalToClone);
      ghost var table' := originalToClone;
      WalkKids(current, stack, kids, k + 1, start);
      GrewOn(table, table', originalToClone);
    }

    method WalkKid(current: Node, stack: seq<Node>, kids: seq<Node>, k: nat, ghost start: map<Node, multiset<Node>>)
      requires Valid() && ErrorExplained() && IsTrail(graph, root, stack + [current], current)
      requires current in graph && kids == ChildrenIn(graph, current) && k < |kids|
      requires current in start && start[current] == multiset{}
      requires walkErr.None? ==> Progress(graph, start, visits, current, multiset(kids[..k]))
      modifies this, originalToClone.Values
      ensures Valid() && ErrorExplained() && IsTrail(graph, root, stack + [current], current)
      ensures kids == ChildrenIn(graph, current)
      ensures forall d :: d in originalToClone.Values ==> d in old(originalToClone.Values) || fresh(d)
      ensures Grew(old(originalToClone), originalToClone)
      ensures old(walkErr).Some? ==> walkErr == old(walkErr)
      ensures walkErr.None? ==> Progress(graph, start, visits, current, multiset(kids[..k + 1])) && rootClone == old(rootClone)
      decreases graph - originalToClone.Keys, 1, 0
    {
      hide Valid, Closed, IsTrail, Reachable, WalkSeq, BadNode, Progress, Due, Grew, ErrorExplained;
      Known();
      KidDue(graph, root, start, visits, stack, current, k);
      ghost var now := visits;
      Walk(kids[k], stack + [current]);
      Known();
      if walkErr.None? {
        KidStep(graph, start, now, visits, current, k);
      }
    }
  }

  /** The finished table: exactly the reachable nodes are copied, and every clone's slots
      have been patched once per visit. */
  ghost predicate CopyOf(graph: set<Node>, root: Node, memo: map<Node, Node>)
    requires Closed(graph)
    reads graph, memo.Values
  {
    && Copied(graph, memo)
    && (forall p :: p in graph ==> (p in memo <==> Reachable(graph, root, p)))
    && forall p :: p in memo ==> Finished(p.typ, p.fields, memo[p].fields, memo)
  }

  /** DeepCopyNode succeeds unless a reachable node has no shallowCopy case; "failed to
      replace child" never happens. The copy is isomorphic to the original at a node
      exactly when no skipped field shadows a walked one there. */
  method DeepCopyNode(n: Node?, ghost graph: set<Node>)
    returns (clone: Node?, origins: map<Node, Node>, err: Option<CopyError>, ghost memo: map<Node, Node>)
    requires Closed(graph) && (n != null ==> n in graph)
    ensures n == null ==> err == Some(NilNode)
    ensures n != null ==> (err.Some? <==> exists p :: p in graph && BadNode(graph, n, p))
    ensures n != null && err.Some? ==> exists p :: p in graph && BadNode(graph, n, p) && err == Some(Unsupported(p.typ.name))
    ensures err.None? ==> n != null && n in memo && clone == memo[n]
    ensures err.None? ==> CopyOf(graph, n, memo) && Inverse(memo, origins) && forall d :: d in memo.Values ==> fresh(d)
    ensures err.None? ==> forall p :: p in memo ==>
      && (WalkedCloned(p.typ, p.fields, memo[p].fields, memo) <==> ShadowFree(p.typ, p.fields))
      && (Faithful(p.typ, p.fields, memo[p].fields, memo) <==> ShadowFree(p.typ, p.fields))
  {
    hide Closed, IsTrail, Reachable, WalkSeq, Progress, Inverse, Patched, Faithful, WalkedCloned, ShadowFree, Finished, Copied, AllReached;
    memo := map[];
    if n == null {
      return null, map[], Some(NilNode), memo;
    }
    var copier := new Copier(n, graph);
    assert [] + [n] == [n];
    StartTrail(graph, n);
    copier.Walk(n, []);
    memo := copier.originalToClone;
    clone, origins, err := copier.Outcome();
    if err.None? {
      WholeGraphCopied(graph, n, memo, copier.visits, copier.trails);
      FaithfulWhere(graph, n, memo);
    }
  }

  lemma {:induction false} StartTrail(graph: set<Node>, n: Node)
    requires Closed(graph) && n in graph
    ensures IsTrail(graph, n, [n], n)
  {
  }

  /** A completed walk has copied exactly the reachable nodes, each one fully patched. */
  lemma WholeGraphCopied(graph: set<Node>, root: Node, memo: map<Node, Node>, visits: map<Node, multiset<Node>>, trails: map<Node, seq<Node>>)
    requires Closed(graph) && Copied(graph, memo) && AllPatched(memo, visits)
    requires trails.Keys == memo.Keys && AllReached(graph, root, trails)
    requires root in memo && Progress(graph, map[], visits, null, multiset{root})
    ensures CopyOf(graph, root, memo)
    ensures forall p :: p in graph && BadNode(graph, root, p) ==> false
  {
    hide Patched, IsTrail, OneToOne, FieldsFit, Finished;
    forall p | p in memo
      ensures Finished(p.typ, p.fields, memo[p].fields, memo)
    {
      NodeFinished(graph, root, memo, visits, p);
    }
    forall p | p in graph
      ensures p in memo <==> Reachable(graph, root, p)
    {
      if p in memo {
        TrailReaches(graph, root, trails[p], p);
      }
      if Reachable(graph, root, p) {
        var trail: seq<Node> :| IsTrail(graph, root, trail, p);
        TrailStaysInside(graph, root, memo, trail, p);
      }
    }
  }

  lemma NodeFinished(graph: set<Node>, root: Node, memo: map<Node, Node>, visits: map<Node, multiset<Node>>, p: Node)
    requires Closed(graph) && Copied(graph, memo) && AllPatched(memo, visits) && p in memo
    requires Progress(graph, map[], visits, null, multiset{root})
    ensures Finished(p.typ, p.fields, memo[p].fields, memo)
  {
    hide Patched, Separate;
    GraphSeparate(graph, memo, p);
  }

  /** At each node the copy is isomorphic exactly when nothing is shadowed there. */
  lemma FaithfulWhere(graph: set<Node>, root: Node, memo: map<Node, Node>)
    requires Closed(graph) && CopyOf(graph, root, memo)
    ensures forall p :: p in memo ==>
      && (WalkedCloned(p.typ, p.fields, memo[p].fields, memo) <==> ShadowFree(p.typ, p.fields))
      && (Faithful(p.typ, p.fields, memo[p].fields, memo) <==> ShadowFree(p.typ, p.fields))
  {
    hide Closed, Copied, Reachable, WalkedCloned, Faithful, ShadowFree;
    forall p | p in memo
      ensures p.typ.Valid() && |p.fields| == |p.typ.specs|
      ensures WalkedCloned(p.typ, p.fields, memo[p].fields, memo) <==> ShadowFree(p.typ, p.fields)
      ensures Faithful(p.typ, p.fields, memo[p].fields, memo) <==> ShadowFree(p.typ, p.fields)
    {
      FaithfulIffShadowFree(p.typ, p.fields, memo[p].fields, memo);
    }
  }

  lemma {:induction false} TrailStaysInside(graph: set<Node>, root: Node, memo: map<Node, Node>, trail: seq<Node>, p: Node)
    requires Closed(graph) && IsTrail(graph, root, trail, p) && root in memo && memo.Keys <= graph
    requires forall q :: q in memo ==> Finished(q.typ, q.fields, memo[q].fields, memo)
    ensures p in memo
  {
    if |trail| > 1 {
      var parent := trail[|trail| - 2];
      TrailStaysInside(graph, root, memo, trail[..|trail| - 1], parent);
      assert p in multiset(Children(parent));
    }
  }

  function Top(stack: seq<Node>): Node?
  {
    if stack == [] then null else stack[|stack| - 1]
  }

  ghost function ChildrenIn(graph: set<Node>, n: Node): seq<Node>
    requires Closed(graph) && n in graph
    reads graph
  {
    Children(n)
  }

  /** What a piece of the walk adds to the counts: "parent" gains "added", every other node
      known before keeps its count, and every new node has all its children counted. */
  ghost predicate Progress(graph: set<Node>, before: map<Node, multiset<Node>>, after: map<Node, multiset<Node>>,
                           parent: Node?, added: multiset<Node>)
    requires Closed(graph)
    reads graph
  {
    && (forall p :: p in before ==>
          p in after && after[p] == before[p] + if p == parent then added else multiset{})
    && (forall p :: p in after && p !in before ==> p in graph && after[p] == multiset(Children(p)))
  }

  lemma SeenStep(graph: set<Node>, before: map<Node, multiset<Node>>, after: map<Node, multiset<Node>>, stack: seq<Node>, c: Node)
    requires Closed(graph) && c in before && DueUnder(graph, before, stack, c) && after == Counted(before, stack, c)
    ensures Progress(graph, before, after, Top(stack), multiset{c})
  {
  }

  lemma EnterStep(graph: set<Node>, before: map<Node, multiset<Node>>, stack: seq<Node>, c: Node)
    requires Closed(graph) && c !in before && DueUnder(graph, before, stack, c)
    ensures c in Counted(before, stack, c) && Counted(before, stack, c)[c] == multiset{}
  {
  }

  lemma KidsStart(graph: set<Node>, visits: map<Node, multiset<Node>>, c: Node)
    requires Closed(graph) && c in visits && visits[c] == multiset{}
    ensures Progress(graph, visits, visits, c, multiset{})
  {
  }

  lemma KidInGraph(graph: set<Node>, c: Node, kid: Node)
    requires Closed(graph) && c in graph && kid in Children(c)
    ensures kid in graph
  {
    WalkSeqMember(c.fields, c.typ.walk, kid);
  }

  lemma {:induction false} KidTrail(graph: set<Node>, root: Node, stack: seq<Node>, c: Node, kid: Node)
    requires Closed(graph) && c in graph && kid in Children(c) && IsTrail(graph, root, stack + [c], c)
    ensures IsTrail(graph, root, stack + [c] + [kid], kid)
  {
    hide Closed, FieldsFit, WalkSeq;
    KidInGraph(graph, c, kid);
    assert (stack + [c] + [kid])[..|stack| + 1] == stack + [c];
  }

  lemma PrefixCount(kids: seq<Node>, k: nat)
    requires k < |kids|
    ensures multiset(kids[..k])[kids[k]] < multiset(kids)[kids[k]]
  {
    assert kids == kids[..k] + [kids[k]] + kids[k + 1..];
  }

  lemma {:induction false} KidDue(graph: set<Node>, root: Node, start: map<Node, multiset<Node>>, now: map<Node, multiset<Node>>, stack: seq<Node>, c: Node, k: nat)
    requires Closed(graph) && c in graph && k < |Children(c)| && IsTrail(graph, root, stack + [c], c)
    ensures IsTrail(graph, root, stack + [c] + [Children(c)[k]], Children(c)[k])
    ensures c in start && start[c] == multiset{} && Progress(graph, start, now, c, multiset(Children(c)[..k]))
      ==> DueUnder(graph, now, stack + [c], Children(c)[k])
  {
    hide IsTrail, WalkSeq, FieldsFit;
    KidTrail(graph, root, stack, c, Children(c)[k]);
    PrefixCount(Children(c), k);
  }

  lemma KidStep(graph: set<Node>, start: map<Node, multiset<Node>>, now: map<Node, multiset<Node>>,
                after: map<Node, multiset<Node>>, c: Node, k: nat)
    requires Closed(graph) && c in graph && k < |Children(c)| && c in start
    requires Progress(graph, start, now, c, multiset(Children(c)[..k]))
    requires Progress(graph, now, after, c, multiset{Children(c)[k]})
    ensures Progress(graph, start, after, c, multiset(Children(c)[..k + 1]))
  {
    hide WalkSeq, FieldsFit;
    var kids := Children(c);
    assert kids[..k + 1] == kids[..k] + [kids[k]];
  }

  lemma EnterThenKids(graph: set<Node>, before: map<Node, multiset<Node>>, entered: map<Node, multiset<Node>>,
                      after: map<Node, multiset<Node>>, stack: seq<Node>, c: Node)
    requires Closed(graph) && c in graph && c !in before && entered == Counted(before, stack, c)
    requires DueUnder(graph, before, stack, c)
    requires Progress(graph, entered, after, c, multiset(Children(c)))
    ensures c in after && Progress(graph, before, after, Top(stack), multiset{c})
  {
    assert c in entered && entered[c] == multiset{};
    forall p | p in before
      ensures p in after && after[p] == before[p] + if p == Top(stack) then multiset{c} else multiset{}
    {
      assert p in entered && p != c;
    }
    forall p | p in after && p !in before
      ensures p in graph && after[p] == multiset(Children(p))
    {
      assert p in entered ==> p == c;
    }
  }

  lemma DueKept(graph: set<Node>, before: map<Node, multiset<Node>>, after: map<Node, multiset<Node>>, stack: seq<Node>, c: Node)
    requires Closed(graph) && (after == before || (c !in before && after == before[c := multiset{}]))
    ensures DueUnder(graph, before, stack, c) ==> DueUnder(graph, after, stack, c)
  {
  }

  lemma {:induction false} TrailReaches(graph: set<Node>, root: Node, trail: seq<Node>, p: Node)
    requires Closed(graph) && IsTrail(graph, root, trail, p)
    ensures p in graph && Reachable(graph, root, p)
  {
  }

  // A reachable node that cannot be copied.
  ghost predicate BadNode(graph: set<Node>, root: Node, p: Node)
    requires Closed(graph)
    reads graph
  {
    Reachable(graph, root, p) && !p.typ.supported
  }

  ghost predicate Grew(before: map<Node, Node>, after: map<Node, Node>)
  {
    forall p :: p in before ==> p in after && after[p] == before[p]
  }

  lemma GrewOn(a: map<Node, Node>, b: map<Node, Node>, c: map<Node, Node>)
    ensures Grew(a, a)
    ensures Grew(a, b) && Grew(b, c) ==> Grew(a, c)
    ensures Grew(a, b) ==> a.Keys <= b.Keys && forall p :: p in a ==> b[p] == a[p]
  {
  }

  lemma NewEntryGrows(a: map<Node, Node>, b: map<Node, Node>, c: Node)
    ensures c !in a && c in b && b == a[c := b[c]] ==> Grew(a, b)
  {
  }

  ghost function Counted(visits: map<Node, multiset<Node>>, stack: seq<Node>, c: Node): map<Node, multiset<Node>>
  {
    var visits' := if c in visits then visits else visits[c := multiset{}];
    if stack == [] then visits' else Bump(visits', stack[|stack| - 1], c)
  }

  ghost predicate DueUnder(graph: set<Node>, visits: map<Node, multiset<Node>>, stack: seq<Node>, c: Node)
    requires Closed(graph)
    reads graph
  {
    stack != [] ==> stack[|stack| - 1] in visits && Due(graph, visits, stack[|stack| - 1], c)
  }
}
