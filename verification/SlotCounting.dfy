/** The counting argument behind astclone.DeepCopyNode. The walk visits children in
    source order, the patch searches slots in field-name order; what ties the two is
    how many slots of each clone have moved from a child to the child's clone. */
module SlotCounting {
  import opened AstNode

  function Sum(s: seq<nat>): nat
  {
    if s == [] then 0 else Sum(s[..|s| - 1]) + s[|s| - 1]
  }

  lemma {:induction false} SumUpdate(s: seq<nat>, k: nat, v: nat)
    requires k < |s|
    ensures Sum(s[k := v]) == Sum(s) - s[k] + v
  {
    var m := |s| - 1;
    if k == m {
      assert s[k := v][..m] == s[..m];
    } else {
      assert s[k := v][..m] == s[..m][k := v];
      SumUpdate(s[..m], k, v);
    }
  }

  lemma {:induction false} SumOrder(s: seq<nat>, t: seq<nat>)
    requires |s| == |t|
    requires forall k :: 0 <= k < |s| ==> s[k] <= t[k]
    ensures Sum(s) <= Sum(t)
    ensures (exists k :: 0 <= k < |s| && s[k] < t[k]) ==> Sum(s) < Sum(t)
  {
    if s != [] {
      var m := |s| - 1;
      SumOrder(s[..m], t[..m]);
      if k :| 0 <= k < |s| && s[k] < t[k] {
        assert k < m ==> s[..m][k] < t[..m][k];
      }
    }
  }

  lemma {:induction false} SumAdd(s: seq<nat>, t: seq<nat>, u: seq<nat>)
    requires |s| == |t| == |u|
    requires forall k :: 0 <= k < |s| ==> s[k] == t[k] + u[k]
    ensures Sum(s) == Sum(t) + Sum(u)
  {
    if s != [] {
      var m := |s| - 1;
      SumAdd(s[..m], t[..m], u[..m]);
    }
  }

  // How many slots of each field hold c, and how many in the fields that are walked.
  function Counts(fields: Fields, c: Node): (r: seq<nat>)
    ensures |r| == |fields|
  {
    seq(|fields|, i requires 0 <= i < |fields| => multiset(fields[i])[c])
  }

  function WalkedCounts(fields: Fields, walk: seq<nat>, c: Node): (r: seq<nat>)
    ensures |r| == |fields|
  {
    seq(|fields|, i requires 0 <= i < |fields| => if i in walk then multiset(fields[i])[c] else 0)
  }

  function Total(fields: Fields, c: Node): nat
  {
    Sum(Counts(fields, c))
  }

  /** The walk visits a child as often as the walked fields hold it. */
  lemma {:induction false} VisitsAreWalkedSlots(fields: Fields, walk: seq<nat>, c: Node)
    requires forall k :: 0 <= k < |walk| ==> walk[k] < |fields|
    requires forall k, l :: 0 <= k < l < |walk| ==> walk[k] != walk[l]
    ensures multiset(WalkSeq(fields, walk))[c] == Sum(WalkedCounts(fields, walk, c))
  {
    if walk == [] {
      SumZero(WalkedCounts(fields, walk, c));
    } else {
      var m := |walk| - 1;
      var f := walk[m];
      var front := walk[..m];
      assert walk == front + [f];
      VisitsAreWalkedSlots(fields, front, c);
      NonNullCounts(fields[f], c);
      assert f !in front;
      assert WalkedCounts(fields, walk, c) == WalkedCounts(fields, front, c)[f := multiset(fields[f])[c]];
      SumUpdate(WalkedCounts(fields, front, c), f, multiset(fields[f])[c]);
    }
  }

  lemma {:induction false} SumZero(s: seq<nat>)
    requires forall k :: 0 <= k < |s| ==> s[k] == 0
    ensures Sum(s) == 0
  {
    if s != [] { SumZero(s[..|s| - 1]); }
  }

  // The originals-to-clones table is one-to-one, and no original is a clone.
  ghost predicate OneToOne(memo: map<Node, Node>)
  {
    && (forall a, b :: a in memo && b in memo && memo[a] == memo[b] ==> a == b)
    && (forall a :: a in memo ==> a !in memo.Values)
  }

  ghost predicate Separate(fields: Fields, memo: map<Node, Node>)
  {
    && OneToOne(memo)
    && forall i :: 0 <= i < |fields| ==> RowSeparate(fields[i], memo)
  }

  ghost predicate RowSeparate(row: seq<Node?>, memo: map<Node, Node>)
  {
    forall c :: c in row ==> c !in memo.Values
  }

  /** "after" holds the clone's fields and "before" the original's. "visits" counts how
      often each child has been visited under this parent so far. */
  ghost predicate Patched(before: Fields, after: Fields, memo: map<Node, Node>, visits: multiset<Node>)
  {
    && |before| == |after|
    && (forall i :: 0 <= i < |before| ==> RowMoved(before[i], after[i], memo))
    && (forall c :: c in visits ==> c in memo)
    && (forall c :: c in memo ==> Total(after, memo[c]) == visits[c])
    && (forall c, i, f :: c in memo && 0 <= i < f < |after| && memo[c] in after[f] ==> c !in after[i])
  }

  // Every slot still holds the original child, or holds that child's clone.
  ghost predicate RowMoved(before: seq<Node?>, after: seq<Node?>, memo: map<Node, Node>)
  {
    && |before| == |after|
    && forall j :: 0 <= j < |before| ==>
         after[j] == before[j] || (before[j] in memo && after[j] == memo[before[j]])
  }

  lemma {:induction false} RowSplit(before: seq<Node?>, after: seq<Node?>, memo: map<Node, Node>, c: Node)
    requires RowMoved(before, after, memo) && RowSeparate(before, memo) && OneToOne(memo) && c in memo
    ensures multiset(before)[c] == multiset(after)[c] + multiset(after)[memo[c]]
    ensures c !in after ==> multiset(after)[memo[c]] == multiset(before)[c]
  {
    if before != [] {
      var m := |before| - 1;
      assert before == before[..m] + [before[m]] && after == after[..m] + [after[m]];
      RowSplit(before[..m], after[..m], memo, c);
      assert before[m] in before;
    }
  }

  /** Conservation: the slots that hold a child in the original are those of the clone
      that still hold it plus those that hold its clone. */
  lemma TotalSplit(before: Fields, after: Fields, memo: map<Node, Node>, visits: multiset<Node>, c: Node)
    requires Patched(before, after, memo, visits) && Separate(before, memo) && c in memo
    ensures Total(before, c) == Total(after, c) + Total(after, memo[c])
  {
    forall i | 0 <= i < |before|
      ensures Counts(before, c)[i] == Counts(after, c)[i] + Counts(after, memo[c])[i]
    {
      RowSplit(before[i], after[i], memo, c);
    }
    SumAdd(Counts(before, c), Counts(after, c), Counts(after, memo[c]));
  }

  lemma TotalAbsent(fields: Fields, c: Node)
    ensures Total(fields, c) == 0 <==> forall i :: 0 <= i < |fields| ==> c !in fields[i]
  {
    var zeros := seq(|fields|, i => 0);
    SumZero(zeros);
    SumOrder(zeros, Counts(fields, c));
    if forall i :: 0 <= i < |fields| ==> c !in fields[i] {
      SumZero(Counts(fields, c));
    } else {
      var i :| 0 <= i < |fields| && c in fields[i];
      assert zeros[i] < Counts(fields, c)[i];
    }
  }

  lemma PatchedCount(before: Fields, after: Fields, memo: map<Node, Node>, visits: multiset<Node>, c: Node)
    requires Patched(before, after, memo, visits) && c in memo
    ensures |before| == |after| && Total(after, memo[c]) == visits[c]
  {
  }

  /** While a visit is still due, some slot of the clone holds the child: a patch cannot fail. */
  lemma {:induction false} PatchPossible(t: NodeType, before: Fields, after: Fields, memo: map<Node, Node>, visits: multiset<Node>, c: Node)
    requires t.Valid() && |before| == |t.specs|
    requires Patched(before, after, memo, visits) && Separate(before, memo) && c in memo
    requires visits[c] < multiset(WalkSeq(before, t.walk))[c]
    ensures exists i :: 0 <= i < |after| && c in after[i]
  {
    PatchedCount(before, after, memo, visits, c);
    hide Patched, Separate, WalkSeq, Sum;
    VisitsAreWalkedSlots(before, t.walk, c);
    SumOrder(WalkedCounts(before, t.walk, c), Counts(before, c));
    TotalSplit(before, after, memo, visits, c);
    TotalAbsent(after, c);
  }

  /** One patch moves exactly one slot, whatever order the slots are searched in. */
  lemma PatchStep(t: NodeType, before: Fields, now: Fields, after: Fields, memo: map<Node, Node>,
                  visits: multiset<Node>, i: nat, j: nat, c: Node)
    requires Patched(before, now, memo, visits) && Separate(before, memo)
    requires c in memo && Replaced(t, now, after, i, j, c, memo[c])
    requires forall f :: 0 <= f < i ==> c !in now[f]
    ensures Patched(before, after, memo, visits + multiset{c})
  {
    PatchRows(t, before, now, after, memo, visits, i, j, c);
    hide RowMoved, Total, Separate;
    forall e | e in memo
      ensures Total(after, memo[e]) == (visits + multiset{c})[e]
    {
      PatchCount(t, now, after, memo, i, j, c, e);
    }
    forall e, g, f | e in memo && 0 <= g < f < |after| && memo[e] in after[f]
      ensures e !in after[g]
    {
      PatchKeepsOrder(now, after, memo, i, j, c, e, g, f);
    }
  }

  lemma PatchRows(t: NodeType, before: Fields, now: Fields, after: Fields, memo: map<Node, Node>,
                  visits: multiset<Node>, i: nat, j: nat, c: Node)
    requires Patched(before, now, memo, visits) && Separate(before, memo)
    requires c in memo && Replaced(t, now, after, i, j, c, memo[c])
    ensures OneToOne(memo) && |before| == |after| && forall f :: 0 <= f < |before| ==> RowMoved(before[f], after[f], memo)
  {
    SlotBeforePatch(before, now, memo, visits, i, j, c);
    hide Total, Separate, OneToOne;
    forall f | 0 <= f < |before|
      ensures RowMoved(before[f], after[f], memo)
    {
      assert RowMoved(before[f], now[f], memo);
    }
  }

  /** Patches keep a node well typed, since a clone has the type of its original. */
  lemma PatchedFits(t: NodeType, before: Fields, after: Fields, memo: map<Node, Node>, visits: multiset<Node>)
    requires FieldsFit(t, before) && Patched(before, after, memo, visits)
    requires forall c :: c in memo ==> memo[c].typ == c.typ
    ensures FieldsFit(t, after)
  {
    forall i | 0 <= i < |after|
      ensures ItemsFit(t.specs[i], after[i])
    {
      assert ItemsFit(t.specs[i], before[i]) && RowMoved(before[i], after[i], memo);
      forall j | 0 <= j < |after[i]|
        ensures after[i][j] == null ==> before[i][j] == null
        ensures after[i][j] != null ==> after[i][j].typ.name in t.specs[i].accepts
      {
        assert before[i][j] in before[i];
      }
    }
  }

  lemma SlotBeforePatch(before: Fields, now: Fields, memo: map<Node, Node>, visits: multiset<Node>, i: nat, j: nat, c: Node)
    requires Patched(before, now, memo, visits) && Separate(before, memo) && c in memo
    requires i < |now| && j < |now[i]| && now[i][j] == c
    ensures before[i][j] == c
  {
    assert RowMoved(before[i], now[i], memo);
  }

  lemma PatchCount(t: NodeType, now: Fields, after: Fields, memo: map<Node, Node>, i: nat, j: nat, c: Node, e: Node)
    requires c in memo && e in memo && OneToOne(memo)
    requires Replaced(t, now, after, i, j, c, memo[c])
    ensures Total(after, memo[e]) == Total(now, memo[e]) + if e == c then 1 else 0
  {
    var n := multiset(after[i])[memo[e]];
    RowUpdateCount(now[i], j, memo[c], memo[e]);
    assert Counts(after, memo[e]) == Counts(now, memo[e])[i := n];
    SumUpdate(Counts(now, memo[e]), i, n);
  }

  lemma PatchKeepsOrder(now: Fields, after: Fields, memo: map<Node, Node>, i: nat, j: nat, c: Node, e: Node, g: nat, f: nat)
    requires c in memo && e in memo && OneToOne(memo)
    requires i < |now| && j < |now[i]| && now[i][j] == c && after == now[i := now[i][j := memo[c]]]
    requires forall h :: 0 <= h < i ==> c !in now[h]
    requires forall x, h, k :: x in memo && 0 <= h < k < |now| && memo[x] in now[k] ==> x !in now[h]
    requires g < f < |after| && memo[e] in after[f]
    ensures e !in after[g]
  {
    if f == i {
      RowUpdateCount(now[i], j, memo[c], memo[e]);
    }
    if g == i {
      RowUpdateCount(now[i], j, memo[c], e);
    }
  }

  lemma RowUpdateCount(row: seq<Node?>, j: nat, d: Node, x: Node)
    requires j < |row|
    ensures multiset(row[j := d])[x] == multiset(row)[x] - (if row[j] == x then 1 else 0) + (if d == x then 1 else 0)
    ensures x in row[j := d] <==> multiset(row[j := d])[x] > 0
  {
    assert row == row[..j] + [row[j]] + row[j + 1..];
    assert row[j := d] == row[..j] + [d] + row[j + 1..];
  }

  /** Recording the clone of one more node leaves every counted relation as it is. */
  lemma MemoGrows(before: Fields, after: Fields, memo: map<Node, Node>, visits: multiset<Node>, c: Node, d: Node)
    requires Patched(before, after, memo, visits)
    requires c !in memo && d !in memo.Values
    requires forall i :: 0 <= i < |before| ==> d !in before[i]
    ensures Patched(before, after, memo[c := d], visits)
  {
    hide Total;
    forall i | 0 <= i < |after|
      ensures d !in after[i]
    {
      assert RowMoved(before[i], after[i], memo);
    }
    TotalAbsent(after, d);
  }

  /** The clone just made by the shallow copy: nothing is patched yet. */
  lemma FreshlyCopied(fields: Fields, memo: map<Node, Node>)
    requires Separate(fields, memo)
    ensures Patched(fields, fields, memo, multiset{})
  {
    forall c | c in memo
      ensures Total(fields, memo[c]) == 0
    {
      forall i | 0 <= i < |fields| ensures memo[c] !in fields[i] {
        assert RowSeparate(fields[i], memo);
      }
      TotalAbsent(fields, memo[c]);
    }
  }

  // No field that the walk skips comes before a walked one with a child in common.
  ghost predicate ShadowFree(t: NodeType, fields: Fields)
    requires |fields| == |t.specs|
  {
    forall u, i, j :: 0 <= u < i < |fields| && u !in t.walk && i in t.walk && 0 <= j < |fields[i]| && fields[i][j] != null
      ==> fields[i][j] !in fields[u]
  }

  // Walked slots hold clones, skipped slots hold the original children.
  ghost predicate Faithful(t: NodeType, before: Fields, after: Fields, memo: map<Node, Node>)
  {
    && |before| == |after|
    && forall i :: 0 <= i < |before| ==> if i in t.walk then RowCloned(before[i], after[i], memo) else after[i] == before[i]
  }

  ghost predicate RowCloned(before: seq<Node?>, after: seq<Node?>, memo: map<Node, Node>)
  {
    && |before| == |after|
    && forall j :: 0 <= j < |before| ==>
         if before[j] == null then after[j] == null else before[j] in memo && after[j] == memo[before[j]]
  }

  // Every walked slot of the clone holds the clone of what the original's slot holds.
  ghost predicate WalkedCloned(t: NodeType, before: Fields, after: Fields, memo: map<Node, Node>)
  {
    && |before| == |after|
    && forall i :: 0 <= i < |before| && i in t.walk ==> RowCloned(before[i], after[i], memo)
  }

  // A node whose walked children have all been visited.
  ghost predicate Finished(t: NodeType, before: Fields, after: Fields, memo: map<Node, Node>)
  {
    && t.Valid() && |before| == |t.specs|
    && Separate(before, memo)
    && Patched(before, after, memo, multiset(WalkSeq(before, t.walk)))
  }

  /** The exact condition under which a finished copy is faithful. When it fails, the
      patches went to the skipped field and some walked slot still holds the original. */
  lemma FaithfulIffShadowFree(t: NodeType, before: Fields, after: Fields, memo: map<Node, Node>)
    requires Finished(t, before, after, memo)
    ensures WalkedCloned(t, before, after, memo) <==> ShadowFree(t, before)
    ensures Faithful(t, before, after, memo) <==> ShadowFree(t, before)
  {
    if ShadowFree(t, before) {
      forall i | 0 <= i < |before| && i in t.walk
        ensures RowCloned(before[i], after[i], memo)
      {
        WalkedRowCloned(t, before, after, memo, i);
      }
    }
    if WalkedCloned(t, before, after, memo) {
      forall u | 0 <= u < |before| && u !in t.walk
        ensures after[u] == before[u]
      {
        SkippedRowUntouched(t, before, after, memo, u);
      }
    }
  }

  lemma WalkedRowCloned(t: NodeType, before: Fields, after: Fields, memo: map<Node, Node>, i: nat)
    requires Finished(t, before, after, memo) && ShadowFree(t, before)
    requires i < |before| && i in t.walk
    ensures RowCloned(before[i], after[i], memo)
  {
    assert RowMoved(before[i], after[i], memo);
    forall j | 0 <= j < |before[i]| && before[i][j] != null
      ensures before[i][j] in memo && after[i][j] == memo[before[i][j]]
    {
      var c: Node := before[i][j];
      assert c in before[i];
      WalkSeqMember(before, t.walk, c);
      assert c in multiset(WalkSeq(before, t.walk));
      NoStrandedSlot(t, before, after, memo, i, c);
    }
  }

  // A walked slot cannot be left behind unless a skipped field took its patch.
  lemma NoStrandedSlot(t: NodeType, before: Fields, after: Fields, memo: map<Node, Node>, i: nat, c: Node)
    requires Finished(t, before, after, memo) && ShadowFree(t, before)
    requires i < |before| && i in t.walk && c in before[i] && c in memo
    ensures c !in after[i]
  {
    if c !in after[i] { return; }
    var moved := Counts(after, memo[c]);
    var walked := WalkedCounts(before, t.walk, c);
    forall f | 0 <= f < |before|
      ensures moved[f] <= walked[f]
    {
      RowSplit(before[f], after[f], memo, c);
      if i < f { assert memo[c] !in after[f]; }
      else if f !in t.walk {
        var j :| 0 <= j < |before[i]| && before[i][j] == c;
        assert before[i][j] !in before[f];
      }
    }
    RowSplit(before[i], after[i], memo, c);
    assert moved[i] < walked[i];
    SumOrder(moved, walked);
    VisitsAreWalkedSlots(before, t.walk, c);
  }

  lemma SkippedRowUntouched(t: NodeType, before: Fields, after: Fields, memo: map<Node, Node>, u: nat)
    requires Finished(t, before, after, memo) && WalkedCloned(t, before, after, memo)
    requires u < |before| && u !in t.walk
    ensures after[u] == before[u]
  {
    assert RowMoved(before[u], after[u], memo);
    if j :| 0 <= j < |before[u]| && after[u][j] != before[u][j] {
      var c: Node := before[u][j];
      var moved := Counts(after, memo[c]);
      var walked := WalkedCounts(before, t.walk, c);
      forall f | 0 <= f < |before|
        ensures walked[f] <= moved[f]
      {
        RowSplit(before[f], after[f], memo, c);
        if f in t.walk {
          assert c !in after[f] by { ClonedRowHasNoOriginal(before[f], after[f], memo, c); }
        }
      }
      assert memo[c] in after[u];
      assert walked[u] < moved[u];
      SumOrder(walked, moved);
      VisitsAreWalkedSlots(before, t.walk, c);
      assert false;
    }
  }

  lemma ClonedRowHasNoOriginal(before: seq<Node?>, after: seq<Node?>, memo: map<Node, Node>, c: Node)
    requires RowCloned(before, after, memo) && OneToOne(memo) && c in memo
    ensures c !in after
  {
    forall j | 0 <= j < |after|
      ensures after[j] != c
    {
      assert before[j] in memo ==> memo[before[j]] in memo.Values;
    }
  }
}
