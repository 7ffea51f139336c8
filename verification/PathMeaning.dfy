/** What ClonePath's result means: unfolded as a tree, it is the original with one
    occurrence substituted. */
module PathMeaning {
  import opened AstNode
  import opened Wrappers
  import opened ClonePath

  datatype Tree = Tree(typ: NodeType, data: string, kids: seq<Row>)
  datatype Row = Row(slots: seq<Option<Tree>>)

  // The fields of a set of nodes, as they are now.
  ghost function Snap(nodes: set<Node>): map<Node, Fields>
    reads nodes
  {
    map n | n in nodes :: n.fields
  }

  // n, read through h, unfolds to t. Only an acyclic graph unfolds.
  ghost predicate Denotes(h: map<Node, Fields>, n: Node, t: Tree)
    decreases t
  {
    && n in h && t.typ == n.typ && t.data == n.data && |t.kids| == |h[n]|
    && forall i :: 0 <= i < |t.kids| ==>
         && |t.kids[i].slots| == |h[n][i]|
         && forall j :: 0 <= j < |t.kids[i].slots| ==> SlotDenotes(h, h[n][i][j], t.kids[i].slots[j])
  }

  ghost predicate SlotDenotes(h: map<Node, Fields>, n: Node?, t: Option<Tree>)
    decreases t
  {
    match t
    case None => n == null
    case Some(u) => n != null && Denotes(h, n, u)
  }

  predicate IsAddress(t: Tree, at: seq<Slot>)
    decreases |at|
  {
    at != [] ==>
    && at[0].field < |t.kids| && at[0].item < |t.kids[at[0].field].slots|
    && t.kids[at[0].field].slots[at[0].item].Some?
    && IsAddress(t.kids[at[0].field].slots[at[0].item].value, at[1..])
  }

  function Subtree(t: Tree, at: seq<Slot>): Tree
    requires IsAddress(t, at)
    decreases |at|
  {
    if at == [] then t else Subtree(t.kids[at[0].field].slots[at[0].item].value, at[1..])
  }

  /** t with the subtree at one address exchanged, and nothing else. */
  function Substitute(t: Tree, at: seq<Slot>, u: Tree): Tree
    requires IsAddress(t, at)
    decreases |at|
  {
    if at == [] then u
    else
      var row := t.kids[at[0].field].slots;
      var kid := Substitute(row[at[0].item].value, at[1..], u);
      t.(kids := t.kids[at[0].field := Row(row[at[0].item := Some(kid)])])
  }

  lemma {:induction false} SubstituteAt(t: Tree, at: seq<Slot>, u: Tree)
    requires IsAddress(t, at)
    ensures IsAddress(Substitute(t, at, u), at) && Subtree(Substitute(t, at, u), at) == u
    decreases |at|
  {
    if at != [] {
      SubstituteAt(t.kids[at[0].field].slots[at[0].item].value, at[1..], u);
    }
  }

  // Two addresses that part ways at some level.
  predicate Apart(a: seq<Slot>, b: seq<Slot>)
  {
    a != [] && b != [] && (a[0] != b[0] || Apart(a[1..], b[1..]))
  }

  lemma {:induction false} SubstituteElsewhere(t: Tree, at: seq<Slot>, u: Tree, other: seq<Slot>)
    requires IsAddress(t, at) && IsAddress(t, other) && Apart(at, other)
    ensures IsAddress(Substitute(t, at, u), other) && Subtree(Substitute(t, at, u), other) == Subtree(t, other)
    decreases |at|
  {
    if at[0] == other[0] {
      SubstituteElsewhere(t.kids[at[0].field].slots[at[0].item].value, at[1..], u, other[1..]);
    }
  }

  lemma {:induction false} MeaningKept(h: map<Node, Fields>, h': map<Node, Fields>, n: Node, t: Tree)
    requires Denotes(h, n, t)
    requires forall m :: m in h ==> m in h' && h'[m] == h[m]
    ensures Denotes(h', n, t)
    decreases t
  {
    forall i, j | 0 <= i < |t.kids| && 0 <= j < |t.kids[i].slots|
      ensures SlotDenotes(h', h'[n][i][j], t.kids[i].slots[j])
    {
      assert SlotDenotes(h, h[n][i][j], t.kids[i].slots[j]);
      if t.kids[i].slots[j].Some? {
        MeaningKept(h, h', h[n][i][j], t.kids[i].slots[j].value);
      }
    }
  }

  /** The substitution theorem. "h" holds the original graph and the mutant's, "h'" also the
      rebuilt spine. The slots ClonePath chose are an address of the original tree, the
      node being replaced sits there, and the result unfolds to the substituted tree. */
  lemma {:induction false} SpliceSubstitutes(h: map<Node, Fields>, h': map<Node, Fields>, orig: seq<Node>, spine: seq<Node>,
                                             slots: seq<Slot>, t: Tree, u: Tree)
    requires Spliced(orig, spine, slots) && orig != []
    requires forall m :: m in h ==> m in h' && h'[m] == h[m] && h[m] == m.fields
    requires forall k :: 0 <= k < |spine| - 1 ==> spine[k] in h' && h'[spine[k]] == spine[k].fields
    requires Denotes(h, orig[0], t) && Denotes(h, spine[|spine| - 1], u)
    ensures IsAddress(t, slots) && Denotes(h, orig[|orig| - 1], Subtree(t, slots))
    ensures Denotes(h', spine[0], Substitute(t, slots, u))
    decreases |orig|
  {
    if |orig| == 1 {
      MeaningKept(h, h', spine[0], u);
      return;
    }
    var f, j := slots[0].field, slots[0].item;
    assert SlotDenotes(h, h[orig[0]][f][j], t.kids[f].slots[j]);
    var t1 := t.kids[f].slots[j].value;
    assert forall k :: 0 <= k < |spine[1..]| - 1 ==> spine[1..][k] == spine[k + 1];
    SpliceSubstitutes(h, h', orig[1..], spine[1..], slots[1..], t1, u);
    var r := Substitute(t, slots, u);
    forall a, b | 0 <= a < |r.kids| && 0 <= b < |r.kids[a].slots|
      ensures SlotDenotes(h', h'[spine[0]][a][b], r.kids[a].slots[b])
    {
      if a != f || b != j {
        assert SlotDenotes(h, h[orig[0]][a][b], t.kids[a].slots[b]);
        if t.kids[a].slots[b].Some? {
          MeaningKept(h, h', h[orig[0]][a][b], t.kids[a].slots[b].value);
        }
      }
    }
  }
}
