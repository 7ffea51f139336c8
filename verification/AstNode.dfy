/** The node graph of internal/astclone, with one generic node class in place of
    the generated case per go/ast type. */
module AstNode {
  import opened Wrappers

  // A child slot lives in a pointer field, in a slice field or in a map field.
  datatype Shape = One | Slice | Table

  // "accepts" names the concrete node types that are assignable to the field's Go type.
  datatype FieldSpec = FieldSpec(name: string, shape: Shape, accepts: set<string>)

  // A concrete go/ast type. "specs" lists the replaceable fields in search order
  // (sorted by name), "walk" the fields that ast.Walk visits, in visiting order.
  // "supported" says whether shallowCopy has a case for the type.
  datatype NodeType = NodeType(name: string, supported: bool, specs: seq<FieldSpec>, walk: seq<nat>) {
    ghost predicate Valid() {
      && (forall k :: 0 <= k < |walk| ==> walk[k] < |specs|)
      && (forall k, l :: 0 <= k < l < |walk| ==> walk[k] != walk[l])
    }
  }

  // fields[i][j] is slot j of field i. A map field lists its values in some order.
  type Fields = seq<seq<Node?>>

  class Node {
    const typ: NodeType
    const data: string      // everything that is not a child: operators, names, positions
    var fields: Fields

    constructor (typ: NodeType, data: string, fields: Fields)
      ensures this.typ == typ && this.data == data && this.fields == fields
    {
      this.typ, this.data, this.fields := typ, data, fields;
    }

    /** Puts newChild into the first slot, in search order, that holds oldChild. */
    method ReplaceChild(oldChild: Node, newChild: Node) returns (ok: bool, ghost i: nat, ghost j: nat)
      requires FieldsFit(typ, fields)
      modifies this`fields
      ensures ok <==> exists f :: Hit(typ, old(fields), f, oldChild, newChild)
      ensures ok ==> Replaced(typ, old(fields), fields, i, j, oldChild, newChild)
      ensures !ok ==> fields == old(fields)
    {
      i, j := 0, 0;
      var f := 0;
      while f < |fields|
        invariant f <= |fields|
        invariant fields == old(fields)
        invariant forall g :: 0 <= g < f ==> !Hit(typ, fields, g, oldChild, newChild)
      {
        var accepts := typ.specs[f].accepts;
        var items: seq<Node?>;
        match typ.specs[f].shape {
          case One => items, ok, j := ReplaceField(fields[f], oldChild, newChild, accepts);
          case Slice => items, ok, j := ReplaceSlice(fields[f], oldChild, newChild, accepts);
          case Table => items, ok, j := ReplaceMapValue(fields[f], oldChild, newChild, accepts);
        }
        if ok {
          i := f;
          assert Hit(typ, old(fields), f, oldChild, newChild);
          fields := fields[f := items];
          return;
        }
        f := f + 1;
      }
      ok := false;
    }
  }

  /** Go's static typing of a node's fields, and the absence of nil list entries
      (ast.Walk panics on those). */
  ghost predicate FieldsFit(t: NodeType, fields: Fields)
  {
    && |fields| == |t.specs|
    && forall i :: 0 <= i < |fields| ==> ItemsFit(t.specs[i], fields[i])
  }

  ghost predicate ItemsFit(spec: FieldSpec, items: seq<Node?>)
  {
    && (spec.shape == One ==> |items| == 1)
    && (spec.shape != One ==> null !in items)
    && forall c: Node :: c in items ==> c.typ.name in spec.accepts
  }

  predicate SameNode(a: Node?, b: Node?)
  {
    a == b
  }

  // Field f holds oldChild, and newChild may be stored there.
  ghost predicate Hit(t: NodeType, fields: Fields, f: nat, oldChild: Node, newChild: Node)
  {
    && f < |fields| == |t.specs|
    && oldChild in fields[f]
    && newChild.typ.name in t.specs[f].accepts
  }

  // "after" is "before" with newChild at slot (i, j), the first hit in search order.
  ghost predicate Replaced(t: NodeType, before: Fields, after: Fields, i: nat, j: nat, oldChild: Node, newChild: Node)
  {
    && Hit(t, before, i, oldChild, newChild)
    && (forall f :: 0 <= f < i ==> !Hit(t, before, f, oldChild, newChild))
    && j < |before[i]|
    && before[i][j] == oldChild
    && (t.specs[i].shape == Slice ==> oldChild !in before[i][..j])
    && after == before[i := before[i][j := newChild]]
  }

  method ReplaceField(items: seq<Node?>, oldChild: Node, newChild: Node, accepts: set<string>)
    returns (out: seq<Node?>, ok: bool, ghost at: nat)
    requires |items| == 1
    ensures ok <==> items[0] == oldChild && newChild.typ.name in accepts
    ensures ok ==> at == 0 && out == items[0 := newChild]
  {
    out, at := items, 0;
    if !SameNode(items[0], oldChild) {
      return out, false, at;
    }
    if newChild.typ.name !in accepts {
      return out, false, at;
    }
    out, ok := items[0 := newChild], true;
  }

  method ReplaceSlice(items: seq<Node?>, oldChild: Node, newChild: Node, accepts: set<string>)
    returns (out: seq<Node?>, ok: bool, ghost at: nat)
    ensures ok <==> oldChild in items && newChild.typ.name in accepts
    ensures ok ==> at < |items| && items[at] == oldChild && oldChild !in items[..at] && out == items[at := newChild]
  {
    out, at := [], 0;
    for i := 0 to |items|
      invariant oldChild !in items[..i]
    {
      if !SameNode(items[i], oldChild) {
        continue;
      }
      if newChild.typ.name !in accepts {
        return out, false, at;
      }
      at := i;
      return items[i := newChild], true, at;
    }
    ok := false;
  }

  // The iteration order of a Go map is unspecified, so the next entry is any entry left.
  method ReplaceMapValue(items: seq<Node?>, oldChild: Node, newChild: Node, accepts: set<string>)
    returns (out: seq<Node?>, ok: bool, ghost at: nat)
    ensures ok <==> oldChild in items && newChild.typ.name in accepts
    ensures ok ==> at < |items| && items[at] == oldChild && out == items[at := newChild]
  {
    out, at := [], 0;
    var left := Indices(|items|);
    while left != {}
      invariant left <= Indices(|items|)
      invariant forall i :: 0 <= i < |items| && items[i] == oldChild ==> i in left
      decreases left
    {
      var i :| i in left;
      left := left - {i};
      if !SameNode(items[i], oldChild) {
        continue;
      }
      if newChild.typ.name !in accepts {
        return out, false, at;
      }
      at := i;
      return items[i := newChild], true, at;
    }
    ok := false;
  }

  /** shallowCopy: a fresh node with the same contents, or null for an unsupported type. */
  method ShallowCopy(n: Node) returns (r: Node?)
    ensures r == null <==> !n.typ.supported
    ensures r != null ==> fresh(r) && r.typ == n.typ && r.data == n.data && r.fields == n.fields
  {
    if !n.typ.supported {
      return null;
    }
    r := new Node(n.typ, n.data, n.fields);
  }

  /** The children of a node in the order in which ast.Walk visits them. */
  function WalkSeq(fields: Fields, walk: seq<nat>): seq<Node>
    requires forall k :: 0 <= k < |walk| ==> walk[k] < |fields|
  {
    if walk == [] then []
    else WalkSeq(fields, walk[..|walk| - 1]) + NonNull(fields[walk[|walk| - 1]])
  }

  function NonNull(items: seq<Node?>): seq<Node>
  {
    if items == [] then []
    else
      var c := items[|items| - 1];
      NonNull(items[..|items| - 1]) + if c == null then [] else [c]
  }

  lemma {:induction false} NonNullCounts(items: seq<Node?>, c: Node)
    ensures multiset(NonNull(items))[c] == multiset(items)[c]
  {
    if items != [] {
      assert items == items[..|items| - 1] + [items[|items| - 1]];
      NonNullCounts(items[..|items| - 1], c);
    }
  }

  lemma {:induction false} NonNullMember(items: seq<Node?>, c: Node)
    ensures c in NonNull(items) <==> c in items
  {
    hide NonNull;
    NonNullCounts(items, c);
    assert c in NonNull(items) <==> c in multiset(NonNull(items));
    assert c in items <==> c in multiset(items);
  }

  // Some field among those listed holds c.
  ghost predicate HeldIn(fields: Fields, walk: seq<nat>, c: Node)
    requires forall k :: 0 <= k < |walk| ==> walk[k] < |fields|
  {
    exists k :: 0 <= k < |walk| && c in fields[walk[k]]
  }

  lemma HeldInStep(fields: Fields, walk: seq<nat>, c: Node)
    requires walk != [] && forall k :: 0 <= k < |walk| ==> walk[k] < |fields|
    ensures HeldIn(fields, walk, c) <==> HeldIn(fields, walk[..|walk| - 1], c) || c in fields[walk[|walk| - 1]]
  {
    var front := walk[..|walk| - 1];
    if HeldIn(fields, front, c) {
      var k :| 0 <= k < |front| && c in fields[front[k]];
      assert c in fields[walk[k]];
    }
  }

  lemma {:induction false} WalkSeqMember(fields: Fields, walk: seq<nat>, c: Node)
    requires forall k :: 0 <= k < |walk| ==> walk[k] < |fields|
    ensures c in WalkSeq(fields, walk) <==> HeldIn(fields, walk, c)
  {
    if walk != [] {
      hide HeldIn, NonNull;
      var m := |walk| - 1;
      WalkSeqMember(fields, walk[..m], c);
      HeldInStep(fields, walk, c);
      NonNullMember(fields[walk[m]], c);
    }
  }
}
