/** The storage behind the lists of astclone and mutation.Collect: what the copies made with
    append([]T(nil), ...) are for. */
module StoredLists {
  import opened AstNode
  import opened Collect
  import opened Storage

  type NodeList = Slice<Node?>

  // One step of the path stack. A push writes into the array that earlier pops left in use.
  method PushOrPop(pathStack: NodeList, n: Node?) returns (r: NodeList)
    requires InBounds(pathStack)
    modifies pathStack.data
    ensures InBounds(r) && (r.data == pathStack.data || fresh(r.data))
    ensures n != null ==> Items(r) == old(Items(pathStack)) + [n]
    ensures n == null ==> Items(r) == old(Items(pathStack))[..if pathStack.len == 0 then 0 else pathStack.len - 1]
  {
    r := pathStack;
    if n == null {
      if pathStack.len > 0 {
        r := NodeList.Slice(pathStack.data, pathStack.len - 1);
      }
    } else {
      r := Append(pathStack, n);
    }
  }

  // One call of the callback. An emitted path is a copy of the stack.
  method Step(collector: Collector, pathStack: NodeList, n: Node?) returns (r: NodeList, emitted: seq<NodeList>)
    requires InBounds(pathStack) && Items(pathStack) == collector.pathStack
    requires collector.funcStack == Funcs(collector.pathStack)
    modifies collector, pathStack.data
    ensures InBounds(r) && (r.data == pathStack.data || fresh(r.data)) && Items(r) == collector.pathStack
    ensures collector.funcStack == Funcs(collector.pathStack)
    ensures |collector.points| == |old(collector.points)| + |emitted| && old(collector.points) <= collector.points
    ensures |emitted| <= 1
    ensures emitted != [] ==>
      && fresh(emitted[0].data) && emitted[0].data != r.data && InBounds(emitted[0])
      && Items(emitted[0]) == collector.points[|collector.points| - 1].path
  {
    hide Funcs;
    var descend := collector.Callback(n);
    r := PushOrPop(pathStack, n);
    emitted := [];
    if n != null && n.typ.name in collector.targets {
      var path := Copy(r);
      emitted := [path];
    }
  }

  /** The callback over any sequence of arguments, with its path stack in an array: although
      later pushes overwrite that array, every emitted path still lists, at the end, the nodes
      of its point. */
  method EmittedPaths(events: seq<Node?>, targets: set<string>) returns (collector: Collector, paths: seq<NodeList>)
    ensures |paths| == |collector.points|
    ensures forall i :: 0 <= i < |paths| ==> InBounds(paths[i]) && Items(paths[i]) == collector.points[i].path
  {
    collector := new Collector(targets);
    paths := [];
    var pathStack := Nil();
    for k := 0 to |events|
      invariant fresh(collector) && collector.funcStack == Funcs(collector.pathStack)
      invariant InBounds(pathStack) && fresh(pathStack.data) && Items(pathStack) == collector.pathStack
      invariant |paths| == |collector.points|
      invariant forall i :: 0 <= i < |paths| ==>
        paths[i].data != pathStack.data && InBounds(paths[i]) && Items(paths[i]) == collector.points[i].path
    {
      hide Funcs, Items, InBounds;
      var emitted;
      pathStack, emitted := Step(collector, pathStack, events[k]);
      paths := paths + emitted;
    }
  }

  // The list fields of shallowCopy: every list of the copy has an array of its own.
  method CloneLists(lists: seq<NodeList>) returns (copies: seq<NodeList>)
    requires forall i :: 0 <= i < |lists| ==> InBounds(lists[i])
    ensures |copies| == |lists|
    ensures forall i :: 0 <= i < |copies| ==> fresh(copies[i].data) && InBounds(copies[i]) && Items(copies[i]) == Items(lists[i])
    ensures forall i, j :: 0 <= i < j < |copies| ==> copies[i].data != copies[j].data
  {
    copies := [];
    for k := 0 to |lists|
      invariant |copies| == k
      invariant forall i :: 0 <= i < k ==> fresh(copies[i].data) && InBounds(copies[i]) && Items(copies[i]) == Items(lists[i])
      invariant forall i, j :: 0 <= i < j < k ==> copies[i].data != copies[j].data
    {
      var copied := Copy(lists[k]);
      copies := copies + [copied];
    }
  }

  /** replaceSlice on stored lists: the result is AstNode.ReplaceSlice's, in a new array; the
      list that was given is not written. */
  method ReplaceStored(items: NodeList, oldChild: Node, newChild: Node, accepts: set<string>)
    returns (out: NodeList, ok: bool, ghost at: nat)
    requires InBounds(items)
    ensures InBounds(out) && fresh(out.data)
    ensures ok <==> oldChild in Items(items) && newChild.typ.name in accepts
    ensures ok ==> at < items.len && Items(items)[at] == oldChild && oldChild !in Items(items)[..at]
    ensures ok ==> Items(out) == Items(items)[at := newChild]
  {
    at := 0;
    for i := 0 to items.len
      invariant oldChild !in Items(items)[..i]
    {
      if !SameNode(items.data[i], oldChild) {
        continue;
      }
      at := i;
      if newChild.typ.name !in accepts {
        out := Nil();
        return out, false, at;
      }
      out := Copy(items);
      out.data[i] := newChild;
      return out, true, at;
    }
    out := Nil();
    ok := false;
  }
}
