/** astclone.ClonePath: copy-on-write replacement of one node along a path. */
module ClonePath {
  import opened AstNode
  import opened Wrappers

  datatype PathError = EmptyPath | NilArgument | UnsupportedParent(typeName: string) | ChildNotFound | NotAFile

  datatype Slot = Slot(field: nat, item: nat)

  /** "spine" is "orig" rebuilt: each node above the last is a copy of its original in which
      the first slot that holds the next original holds the next rebuilt node instead. */
  ghost predicate Spliced(orig: seq<Node>, spine: seq<Node>, slots: seq<Slot>)
    reads orig, spine
    decreases |orig|
  {
    && |orig| == |spine| == |slots| + 1
    && (|orig| > 1 ==>
          && spine[0].typ == orig[0].typ && spine[0].data == orig[0].data
          && Replaced(orig[0].typ, orig[0].fields, spine[0].fields, slots[0].field, slots[0].item, orig[1], spine[1])
          && Spliced(orig[1..], spine[1..], slots[1..]))
  }

  // What the path must satisfy for the replacement to go through.
  ghost predicate Cloneable(orig: seq<Node>, nodeMut: Node)
    reads orig
    decreases |orig|
  {
    && orig != []
    && (|orig| > 1 ==>
          && CanReplace(orig[0], orig[1], if |orig| == 2 then nodeMut else orig[1])
          && Cloneable(orig[1..], nodeMut))
  }

  ghost predicate CanReplace(parent: Node, oldChild: Node, newChild: Node)
    reads parent
  {
    parent.typ.supported && exists f :: Hit(parent.typ, parent.fields, f, oldChild, newChild)
  }

  // Level i is the first, from the mutated node upwards, at which the replacement fails.
  ghost predicate FirstFailure(orig: seq<Node>, nodeMut: Node, i: nat, err: PathError)
    reads orig
  {
    && i + 1 < |orig| && Cloneable(orig[i + 1..], nodeMut)
    && !CanReplace(orig[i], orig[i + 1], if i + 2 == |orig| then nodeMut else orig[i + 1])
    && err == if orig[i].typ.supported then ChildNotFound else UnsupportedParent(orig[i].typ.name)
  }

  /** Only one level is the first, and only one error belongs to it. */
  lemma {:induction false} OneFirstFailure(orig: seq<Node>, nodeMut: Node, i: nat, err: PathError, j: nat, err': PathError)
    requires FirstFailure(orig, nodeMut, i, err) && FirstFailure(orig, nodeMut, j, err')
    ensures i == j && err == err' && !Cloneable(orig, nodeMut)
  {
    hide CanReplace;
    FailureBlocks(orig, nodeMut, i, err, j + 1);
    FailureBlocks(orig, nodeMut, j, err', i + 1);
    FailureBlocks(orig, nodeMut, i, err, 0);
    assert orig[0..] == orig;
  }

  lemma {:induction false} FailureBlocks(orig: seq<Node>, nodeMut: Node, i: nat, err: PathError, k: nat)
    requires FirstFailure(orig, nodeMut, i, err) && k < |orig|
    ensures k <= i ==> !Cloneable(orig[k..], nodeMut)
  {
    hide CanReplace;
    assert orig[i..][1..] == orig[i + 1..];
    CloneableFrom(orig, nodeMut, k, i);
  }

  lemma {:induction false} CloneableFrom(orig: seq<Node>, nodeMut: Node, k: nat, i: nat)
    requires i < |orig|
    ensures k <= i && Cloneable(orig[k..], nodeMut) ==> Cloneable(orig[i..], nodeMut)
  {
    hide Cloneable;
    if k <= i && Cloneable(orig[k..], nodeMut) {
      CloneableSuffix(orig[k..], nodeMut, i - k);
      assert orig[k..][i - k..] == orig[i..];
    }
  }

  lemma {:induction false} CloneableSuffix(orig: seq<Node>, nodeMut: Node, i: nat)
    requires i < |orig| && Cloneable(orig, nodeMut)
    ensures Cloneable(orig[i..], nodeMut)
  {
    if i > 0 {
      CloneableSuffix(orig[1..], nodeMut, i - 1);
      assert orig[1..][i - 1..] == orig[i..];
    }
  }

  function Originals(path: seq<Node>, nodeOrig: Node): (r: seq<Node>)
    requires path != []
    ensures |r| == |path| && r[|r| - 1] == nodeOrig && forall k :: 0 <= k < |r| - 1 ==> r[k] == path[k]
  {
    path[..|path| - 1] + [nodeOrig]
  }

  // One level: copy the parent and put the rebuilt child in the original child's place.
  method CloneParent(parentOrig: Node, childOrig: Node, childClone: Node)
    returns (parentClone: Node?, err: Option<PathError>, ghost at: Slot)
    requires FieldsFit(parentOrig.typ, parentOrig.fields)
    ensures err.None? <==> CanReplace(parentOrig, childOrig, childClone)
    ensures err.Some? ==> err.value == if parentOrig.typ.supported then ChildNotFound else UnsupportedParent(parentOrig.typ.name)
    ensures err.None? ==> fresh(parentClone) && parentClone.typ == parentOrig.typ && parentClone.data == parentOrig.data
    ensures err.None? ==> Replaced(parentOrig.typ, parentOrig.fields, parentClone.fields, at.field, at.item, childOrig, childClone)
  {
    err, at := None, Slot(0, 0);
    parentClone := ShallowCopy(parentOrig);
    if parentClone == null {
      err := Some(UnsupportedParent(parentOrig.typ.name));
      return;
    }
    ghost var f: nat, j: nat;
    var ok;
    ok, f, j := parentClone.ReplaceChild(childOrig, childClone);
    if !ok {
      err := Some(ChildNotFound);
      return;
    }
    at := Slot(f, j);
  }

  lemma {:induction false} SplicedStep(orig: seq<Node>, spine: seq<Node>, slots: seq<Slot>, i: nat, parentClone: Node, at: Slot)
    requires i + 1 < |orig| && Spliced(orig[i + 1..], spine, slots)
    requires parentClone.typ == orig[i].typ && parentClone.data == orig[i].data
    requires Replaced(orig[i].typ, orig[i].fields, parentClone.fields, at.field, at.item, orig[i + 1], spine[0])
    ensures Spliced(orig[i..], [parentClone] + spine, [at] + slots)
  {
    assert orig[i..][1..] == orig[i + 1..];
    assert ([parentClone] + spine)[1..] == spine && ([at] + slots)[1..] == slots;
  }

  lemma {:induction false} CloneableStep(orig: seq<Node>, nodeMut: Node, i: nat, childClone: Node)
    requires i + 1 < |orig|
    requires Cloneable(orig[i + 1..], nodeMut)
    requires if i + 2 == |orig| then childClone == nodeMut else childClone.typ == orig[i + 1].typ
    ensures CanReplace(orig[i], orig[i + 1], childClone) <==> Cloneable(orig[i..], nodeMut)
  {
    assert orig[i..][1..] == orig[i + 1..];
    var newChild := if i + 2 == |orig| then nodeMut else orig[i + 1];
    SameTypeReplace(orig[i], orig[i + 1], childClone, newChild);
    SameTypeReplace(orig[i], orig[i + 1], newChild, childClone);
  }

  lemma {:induction false} FailsHere(orig: seq<Node>, nodeMut: Node, i: nat, childClone: Node, err: PathError)
    requires i + 1 < |orig| && Cloneable(orig[i + 1..], nodeMut) && !CanReplace(orig[i], orig[i + 1], childClone)
    requires if i + 2 == |orig| then childClone == nodeMut else childClone.typ == orig[i + 1].typ
    requires err == if orig[i].typ.supported then ChildNotFound else UnsupportedParent(orig[i].typ.name)
    ensures FirstFailure(orig, nodeMut, i, err)
  {
    hide Cloneable;
    SameTypeReplace(orig[i], orig[i + 1], if i + 2 == |orig| then nodeMut else orig[i + 1], childClone);
  }

  lemma SameTypeReplace(parent: Node, oldChild: Node, a: Node, b: Node)
    requires a.typ == b.typ
    ensures CanReplace(parent, oldChild, a) ==> CanReplace(parent, oldChild, b)
  {
    if CanReplace(parent, oldChild, a) {
      var f :| Hit(parent.typ, parent.fields, f, oldChild, a);
      assert Hit(parent.typ, parent.fields, f, oldChild, b);
    }
  }

  // Each rebuilt node is recorded with its original, and nothing else is.
  ghost predicate Recorded(cloneMap: map<Node, Node>, orig: seq<Node>, spine: seq<Node>)
  {
    && |orig| == |spine|
    && (forall k :: 0 <= k < |spine| ==> spine[k] in cloneMap && cloneMap[spine[k]] == orig[k])
    && (forall n :: n in cloneMap ==> n in spine)
  }

  lemma RecordedStep(cloneMap: map<Node, Node>, orig: seq<Node>, spine: seq<Node>, i: nat, parentClone: Node)
    requires i + 1 < |orig| && Recorded(cloneMap, orig[i + 1..], spine) && parentClone !in spine
    ensures Recorded(cloneMap[parentClone := orig[i]], orig[i..], [parentClone] + spine)
  {
    var spine' := [parentClone] + spine;
    var cloneMap' := cloneMap[parentClone := orig[i]];
    forall k | 0 <= k < |spine'|
      ensures spine'[k] in cloneMap' && cloneMap'[spine'[k]] == orig[i..][k]
    {
      if k > 0 { assert spine'[k] == spine[k - 1] && spine[k - 1] in spine; }
    }
    forall n | n in cloneMap' ensures n in spine' {
      if n != parentClone { assert n in spine; }
    }
  }

  // What holds once the levels from i down to the mutated node are rebuilt.
  ghost predicate Rebuilt(orig: seq<Node>, nodeMut: Node, i: nat, cloneMap: map<Node, Node>, spine: seq<Node>, slots: seq<Slot>)
    reads orig, spine
  {
    && i < |orig| && |spine| == |orig| - i && spine[|spine| - 1] == nodeMut
    && (|spine| > 1 ==> spine[0].typ == orig[i].typ)
    && Spliced(orig[i..], spine, slots) && Cloneable(orig[i..], nodeMut) && Recorded(cloneMap, orig[i..], spine)
  }

  // One turn of the loop of ClonePath.
  method RebuildLevel(ghost orig: seq<Node>, ghost nodeMut: Node, ghost i: nat, parentOrig: Node, childOrig: Node, childClone: Node,
                      map0: map<Node, Node>, ghost spine0: seq<Node>, ghost slots0: seq<Slot>)
    returns (parentClone: Node?, cloneMap: map<Node, Node>, err: Option<PathError>, ghost spine: seq<Node>, ghost slots: seq<Slot>)
    requires Rebuilt(orig, nodeMut, i + 1, map0, spine0, slots0)
    requires parentOrig == orig[i] && childOrig == orig[i + 1] && childClone == spine0[0] && FieldsFit(parentOrig.typ, parentOrig.fields)
    ensures err.None? <==> Cloneable(orig[i..], nodeMut)
    ensures err.Some? ==> FirstFailure(orig, nodeMut, i, err.value) && (err.value.UnsupportedParent? || err.value.ChildNotFound?)
    ensures err.None? ==> fresh(parentClone) && spine == [parentClone] + spine0 && Rebuilt(orig, nodeMut, i, cloneMap, spine, slots)
  {
    hide FieldsFit, Replaced, CanReplace, Spliced, Cloneable, Recorded, FirstFailure;
    cloneMap, spine, slots := map0, spine0, slots0;
    CloneableStep(orig, nodeMut, i, childClone);
    ghost var at;
    parentClone, err, at := CloneParent(parentOrig, childOrig, childClone);
    if err.Some? {
      FailsHere(orig, nodeMut, i, childClone, err.value);
      return;
    }
    SplicedStep(orig, spine, slots, i, parentClone, at);
    RecordedStep(cloneMap, orig, spine, i, parentClone);
    cloneMap := cloneMap[parentClone := parentOrig];
    spine, slots := [parentClone] + spine, [at] + slots;
  }

  // The loop of ClonePath, from the parent of the mutated node up to the root.
  method CloneSpine(path: seq<Node>, nodeOrig: Node, nodeMut: Node)
    returns (top: Node, cloneMap: map<Node, Node>, err: Option<PathError>, ghost spine: seq<Node>, ghost slots: seq<Slot>)
    requires path != [] && forall n :: n in path ==> FieldsFit(n.typ, n.fields)
    ensures err.None? <==> Cloneable(Originals(path, nodeOrig), nodeMut)
    ensures err.Some? ==> err.value.UnsupportedParent? || err.value.ChildNotFound?
    ensures err.Some? ==> exists i :: FirstFailure(Originals(path, nodeOrig), nodeMut, i, err.value)
    ensures err.None? ==>
      && Spliced(Originals(path, nodeOrig), spine, slots) && Recorded(cloneMap, Originals(path, nodeOrig), spine)
      && |spine| == |path| && top == spine[0] && top.typ == (if |path| == 1 then nodeMut.typ else path[0].typ)
      && spine[|path| - 1] == nodeMut && forall k :: 0 <= k < |path| - 1 ==> fresh(spine[k])
  {
    hide FieldsFit, Rebuilt, Cloneable, FirstFailure;
    err, cloneMap := None, map[nodeMut := nodeOrig];
    ghost var orig := Originals(path, nodeOrig);
    var childOrig, childClone := nodeOrig, nodeMut;
    spine, slots := [nodeMut], [];
    top := nodeMut;
    LastLevel(orig, nodeOrig, nodeMut);
    var i := |path| - 2;
    while i >= 0
      invariant -1 <= i <= |path| - 2 && err == None && |spine| == |path| - 1 - i
      invariant Rebuilt(orig, nodeMut, i + 1, cloneMap, spine, slots)
      invariant childOrig == orig[i + 1] && childClone == spine[0]
      invariant forall k :: 0 <= k < |spine| - 1 ==> fresh(spine[k])
    {
      if Cloneable(orig, nodeMut) { CloneableSuffix(orig, nodeMut, i); }
      var parentOrig := path[i];
      var parentClone;
      parentClone, cloneMap, err, spine, slots := RebuildLevel(orig, nodeMut, i, parentOrig, childOrig, childClone, cloneMap, spine, slots);
      if err.Some? {
        return;
      }
      childOrig, childClone := parentOrig, parentClone;
      i := i - 1;
    }
    AllRebuilt(orig, nodeMut, cloneMap, spine, slots);
    top := childClone;
  }

  lemma {:induction false} AllRebuilt(orig: seq<Node>, nodeMut: Node, cloneMap: map<Node, Node>, spine: seq<Node>, slots: seq<Slot>)
    requires Rebuilt(orig, nodeMut, 0, cloneMap, spine, slots)
    ensures Spliced(orig, spine, slots) && Cloneable(orig, nodeMut) && Recorded(cloneMap, orig, spine)
    ensures |spine| == |orig| > 0 && spine[|spine| - 1] == nodeMut && (|spine| > 1 ==> spine[0].typ == orig[0].typ)
  {
    hide Spliced, Cloneable, Recorded;
    assert orig[0..] == orig;
  }

  lemma {:induction false} LastLevel(orig: seq<Node>, nodeOrig: Node, nodeMut: Node)
    requires orig != [] && orig[|orig| - 1] == nodeOrig
    ensures Rebuilt(orig, nodeMut, |orig| - 1, map[nodeMut := nodeOrig], [nodeMut], [])
  {
  }

  method ClonePath(path: seq<Node>, nodeOrig: Node?, nodeMut: Node?)
    returns (file: Node?, cloneMap: map<Node, Node>, err: Option<PathError>, ghost spine: seq<Node>, ghost slots: seq<Slot>)
    requires forall n :: n in path ==> FieldsFit(n.typ, n.fields)
    ensures path == [] <==> err == Some(EmptyPath)
    ensures path != [] && (nodeOrig == null || nodeMut == null) <==> err == Some(NilArgument)
    ensures path != [] && nodeOrig != null && nodeMut != null ==>
      var rootType := if |path| == 1 then nodeMut.typ else path[0].typ;
      && (err.None? <==> Cloneable(Originals(path, nodeOrig), nodeMut) && rootType.name == "File")
      && (err == Some(NotAFile) <==> Cloneable(Originals(path, nodeOrig), nodeMut) && rootType.name != "File")
      && (!Cloneable(Originals(path, nodeOrig), nodeMut) ==>
            err.Some? && exists i :: FirstFailure(Originals(path, nodeOrig), nodeMut, i, err.value))
    ensures err.None? ==>
      && path != [] && nodeOrig != null && nodeMut != null
      && Spliced(Originals(path, nodeOrig), spine, slots) && Recorded(cloneMap, Originals(path, nodeOrig), spine)
      && file == spine[0] && spine[|path| - 1] == nodeMut && forall k :: 0 <= k < |path| - 1 ==> fresh(spine[k])
  {
    hide FieldsFit, Spliced, Cloneable, Recorded, FirstFailure;
    file, cloneMap, err, spine, slots := null, map[], None, [], [];
    if |path| == 0 {
      err := Some(EmptyPath);
      return;
    }
    if nodeOrig == null || nodeMut == null {
      err := Some(NilArgument);
      return;
    }
    var top;
    top, cloneMap, err, spine, slots := CloneSpine(path, nodeOrig, nodeMut);
    if err.Some? {
      return;
    }
    if top.typ.name != "File" {
      err := Some(NotAFile);
      return;
    }
    file := top;
  }
}
