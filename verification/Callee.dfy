/** calledFunctionObject and replaceCalledFunctionName of internal/rule/function_swap.go: two
    recursions over the callee of a call that must agree on which identifier they mean. */
module Callee {
  import opened Wrappers

  datatype Ident = Ident(name: string, pos: int, obj: Option<string>)
  datatype Expr =
    | Name(id: Ident)
    | Select(x: Expr, sel: Option<Ident>)
    | Index(x: Expr, lbrack: int, index: Expr, rbrack: int)
    | IndexList(x: Expr, lbrack: int, indices: seq<Expr>, rbrack: int)
    | OtherExpr(tag: string)

  // "objectOf" is types.Info.ObjectOf restricted to function objects.
  function CalledFunctionObject<F>(objectOf: map<Ident, F>, fun: Expr): Option<F>
  {
    match fun
    case Name(id) => if id in objectOf then Some(objectOf[id]) else None
    case Select(_, sel) => if sel.Some? && sel.value in objectOf then Some(objectOf[sel.value]) else None
    case Index(x, _, _, _) => CalledFunctionObject(objectOf, x)
    case IndexList(x, _, _, _) => CalledFunctionObject(objectOf, x)
    case OtherExpr(_) => None
  }

  function ReplaceCalledFunctionName(fun: Expr, fromName: string, toName: string): Option<Expr>
  {
    match fun
    case Name(id) =>
      if id.name != fromName then None else Some(Name(Ident(toName, id.pos, id.obj)))
    case Select(x, sel) =>
      if sel.None? || sel.value.name != fromName then None
      else Some(Select(x, Some(Ident(toName, sel.value.pos, None))))
    case Index(x, l, i, r) =>
      var x' := ReplaceCalledFunctionName(x, fromName, toName);
      if x'.None? then None else Some(Index(x'.value, l, i, r))
    case IndexList(x, l, many, r) =>
      var x' := ReplaceCalledFunctionName(x, fromName, toName);
      if x'.None? then None else Some(IndexList(x'.value, l, many, r))
    case OtherExpr(_) => None
  }

  // The identifier that names the called function, type arguments stripped.
  function CalledIdent(fun: Expr): Option<Ident>
  {
    match fun
    case Name(id) => Some(id)
    case Select(_, sel) => sel
    case Index(x, _, _, _) => CalledIdent(x)
    case IndexList(x, _, _, _) => CalledIdent(x)
    case OtherExpr(_) => None
  }

  // fun with another called identifier and nothing else changed
  function WithCalled(fun: Expr, id: Ident): Expr
  {
    match fun
    case Name(_) => Name(id)
    case Select(x, _) => Select(x, Some(id))
    case Index(x, l, i, r) => Index(WithCalled(x, id), l, i, r)
    case IndexList(x, l, many, r) => IndexList(WithCalled(x, id), l, many, r)
    case OtherExpr(_) => fun
  }

  predicate IsSelected(fun: Expr)
  {
    match fun
    case Select(_, _) => true
    case Index(x, _, _, _) => IsSelected(x)
    case IndexList(x, _, _, _) => IsSelected(x)
    case _ => false
  }

  /** Both recursions settle on the same identifier: one looks it up, the other renames it
      and changes nothing else, and it succeeds exactly when that identifier has the name. */
  lemma {:induction false} SameIdentifier<F>(objectOf: map<Ident, F>, fun: Expr, fromName: string, toName: string)
    ensures CalledFunctionObject(objectOf, fun) ==
      (if CalledIdent(fun).Some? && CalledIdent(fun).value in objectOf then Some(objectOf[CalledIdent(fun).value]) else None)
    ensures var r := ReplaceCalledFunctionName(fun, fromName, toName);
      && (r.Some? <==> CalledIdent(fun).Some? && CalledIdent(fun).value.name == fromName)
      && (r.Some? ==>
            var id := CalledIdent(fun).value;
            r.value == WithCalled(fun, Ident(toName, id.pos, if IsSelected(fun) then None else id.obj)))
  {
    match fun
    case Index(x, _, _, _) => SameIdentifier(objectOf, x, fromName, toName);
    case IndexList(x, _, _, _) => SameIdentifier(objectOf, x, fromName, toName);
    case _ =>
  }

  lemma {:induction false} WithCalledLaws(fun: Expr, a: Ident, b: Ident)
    requires CalledIdent(fun).Some?
    ensures CalledIdent(WithCalled(fun, a)) == Some(a) && IsSelected(WithCalled(fun, a)) == IsSelected(fun)
    ensures WithCalled(WithCalled(fun, a), b) == WithCalled(fun, b)
    ensures WithCalled(fun, CalledIdent(fun).value) == fun
  {
    match fun
    case Index(x, _, _, _) => WithCalledLaws(x, a, b);
    case IndexList(x, _, _, _) => WithCalledLaws(x, a, b);
    case _ =>
  }

  /** Renaming back restores the callee, if and only if it is not a selected name with a
      resolved object: that object is dropped. */
  lemma {:induction false} RenamingBack(fun: Expr, fromName: string, toName: string)
    requires CalledIdent(fun).Some? && CalledIdent(fun).value.name == fromName
    ensures var r := ReplaceCalledFunctionName(fun, fromName, toName);
      r.Some? && (ReplaceCalledFunctionName(r.value, toName, fromName) == Some(fun)
                  <==> !IsSelected(fun) || CalledIdent(fun).value.obj.None?)
  {
    var none: map<Ident, int> := map[];
    SameIdentifier(none, fun, fromName, toName);
    var r := ReplaceCalledFunctionName(fun, fromName, toName).value;
    var id := CalledIdent(fun).value;
    var there := Ident(toName, id.pos, if IsSelected(fun) then None else id.obj);
    var back := Ident(fromName, id.pos, if IsSelected(fun) then None else id.obj);
    WithCalledLaws(fun, there, back);
    WithCalledLaws(fun, back, back);
    SameIdentifier(none, r, toName, fromName);
  }

  // ---- the same, layer by layer

  // Type arguments around a callee.
  datatype Layer = OneArgument(lbrack: int, index: Expr, rbrack: int) | Arguments(lbrack: int, indices: seq<Expr>, rbrack: int)

  // The innermost layer comes first.
  function Wrap(core: Expr, layers: seq<Layer>): Expr
  {
    if layers == [] then core
    else
      var x := Wrap(core, layers[..|layers| - 1]);
      match layers[|layers| - 1]
      case OneArgument(l, i, r) => Index(x, l, i, r)
      case Arguments(l, many, r) => IndexList(x, l, many, r)
  }

  /** Every callee is a name, a selection or something else, in layers of type arguments. */
  lemma {:induction false} Unwrap(fun: Expr) returns (core: Expr, layers: seq<Layer>)
    ensures fun == Wrap(core, layers) && (core.Name? || core.Select? || core.OtherExpr?)
  {
    match fun {
      case Index(x, l, i, r) =>
        core, layers := Unwrap(x);
        layers := layers + [OneArgument(l, i, r)];
      case IndexList(x, l, many, r) =>
        core, layers := Unwrap(x);
        layers := layers + [Arguments(l, many, r)];
      case _ => core, layers := fun, [];
    }
  }

  /** Renaming goes through all layers and keeps them: it changes the name of a plain
      identifier, or of a selected one, whose object is dropped, and nothing else. */
  lemma {:induction false} RenamingUnderLayers(core: Expr, layers: seq<Layer>, fromName: string, toName: string)
    requires core.Name? || core.Select? || core.OtherExpr?
    ensures ReplaceCalledFunctionName(Wrap(core, layers), fromName, toName) ==
      match core {
        case Name(id) => if id.name == fromName then Some(Wrap(Name(Ident(toName, id.pos, id.obj)), layers)) else None
        case Select(x, sel) =>
          if sel.Some? && sel.value.name == fromName then Some(Wrap(Select(x, Some(Ident(toName, sel.value.pos, None))), layers)) else None
        case _ => None
      }
  {
    if layers != [] {
      RenamingUnderLayers(core, layers[..|layers| - 1], fromName, toName);
    }
  }

  /** So does the look-up. */
  lemma {:induction false} LookupUnderLayers<F>(objectOf: map<Ident, F>, core: Expr, layers: seq<Layer>)
    requires core.Name? || core.Select? || core.OtherExpr?
    ensures CalledFunctionObject(objectOf, Wrap(core, layers)) ==
      match core {
        case Name(id) => if id in objectOf then Some(objectOf[id]) else None
        case Select(_, sel) => if sel.Some? && sel.value in objectOf then Some(objectOf[sel.value]) else None
        case _ => None
      }
  {
    if layers != [] {
      LookupUnderLayers(objectOf, core, layers[..|layers| - 1]);
    }
  }
}
