/** parsePackageFunctionName and parseRuntimeFunctionName of internal/rule/function_swap.go:
    splitting a runtime function name into package path and function. */
module FunctionName {
  import opened Wrappers

  // What token.IsIdentifier depends on: Unicode letters and digits, and Go's keywords.
  datatype Lexicon = Lexicon(letters: set<char>, digits: set<char>, keywords: set<string>) {
    ghost predicate Valid() {
      forall c :: c in letters || c in digits ==> c !in {'.', '(', ')', '[', ']', '/'}
    }

    predicate IsIdentifier(s: string) {
      && s != "" && s !in keywords
      && (s[0] in letters || s[0] == '_')
      && forall i :: 0 <= i < |s| ==> s[i] in letters || s[i] in digits || s[i] == '_'
    }
  }

  predicate ContainsAny(s: string, chars: set<char>)
  {
    exists i :: 0 <= i < |s| && s[i] in chars
  }

  function IndexOf(s: string, c: char): (r: int)
    ensures -1 <= r < |s|
    ensures r == -1 <==> c !in s
    ensures r >= 0 ==> s[r] == c && forall i :: 0 <= i < r ==> s[i] != c
  {
    if s == "" then -1
    else if s[0] == c then 0
    else
      assert s == [s[0]] + s[1..];
      var r := IndexOf(s[1..], c);
      if r < 0 then -1 else r + 1
  }

  function LastIndex(s: string, c: char): (r: int)
    ensures -1 <= r < |s|
    ensures r == -1 <==> c !in s
    ensures r >= 0 ==> s[r] == c && forall i :: r < i < |s| ==> s[i] != c
  {
    if s == "" then -1
    else if s[|s| - 1] == c then |s| - 1
    else
      var front := s[..|s| - 1];
      assert s == front + [s[|s| - 1]];
      LastIndex(front, c)
  }

  // "", or "[" + anything + "]"
  predicate IsTypeArgs(tail: string)
  {
    tail == "" || (|tail| >= 2 && tail[0] == '[' && tail[|tail| - 1] == ']')
  }

  /** parseRuntimeFunctionName: cut at the first "[", then check. */
  function ParseRuntimeFunctionName(lex: Lexicon, rawName: string): Option<string>
  {
    var cut := IndexOf(rawName, '[');
    if cut >= 0 && (cut + 1 == |rawName| || rawName[|rawName| - 1] != ']') then None
    else
      var name := if cut >= 0 then rawName[..cut] else rawName;
      if ContainsAny(name, {'.', '(', ')'}) then None
      else if name == "" || !lex.IsIdentifier(name) then None
      else Some(name)
  }

  /** It accepts exactly an identifier with optional type arguments. */
  lemma RuntimeNameForm(lex: Lexicon, rawName: string)
    requires lex.Valid()
    ensures forall name :: ParseRuntimeFunctionName(lex, rawName) == Some(name) <==>
      lex.IsIdentifier(name) && name <= rawName && IsTypeArgs(rawName[|name|..])
  {
    forall name
      ensures ParseRuntimeFunctionName(lex, rawName) == Some(name) <==>
        lex.IsIdentifier(name) && name <= rawName && IsTypeArgs(rawName[|name|..])
    {
      var cut := IndexOf(rawName, '[');
      if lex.IsIdentifier(name) && name <= rawName && IsTypeArgs(rawName[|name|..]) {
        CutAfterName(lex, rawName, name);
      }
    }
  }

  lemma CutAfterName(lex: Lexicon, rawName: string, name: string)
    requires lex.Valid() && lex.IsIdentifier(name) && name <= rawName && IsTypeArgs(rawName[|name|..])
    ensures ParseRuntimeFunctionName(lex, rawName) == Some(name)
  {
    var cut := IndexOf(rawName, '[');
    assert forall i :: 0 <= i < |name| ==> name[i] == rawName[i] && name[i] !in {'.', '(', ')', '[', ']', '/'};
    if rawName[|name|..] == "" {
      assert rawName == name;
    } else {
      var tail := rawName[|name|..];
      assert tail[0] == rawName[|name|] && tail[|tail| - 1] == rawName[|rawName| - 1];
      FirstBracket(rawName, |name|);
      assert rawName[..|name|] == name;
    }
  }

  lemma {:induction false} FirstBracket(s: string, k: nat)
    requires k < |s| && s[k] == '[' && forall i :: 0 <= i < k ==> s[i] != '['
    ensures IndexOf(s, '[') == k
  {
    assert s[k] in s;
  }

  datatype Split = Split(path: string, name: string)

  // The loop of parsePackageFunctionName from byte i on.
  function ScanDots(lex: Lexicon, prefix: string, afterSlash: string, i: nat): Option<Split>
    requires i <= |afterSlash|
    decreases |afterSlash| - i
  {
    if i == |afterSlash| then None
    else if AcceptsAt(lex, afterSlash, i) then
      Some(Split(prefix + afterSlash[..i], ParseRuntimeFunctionName(lex, afterSlash[i + 1..]).value))
    else ScanDots(lex, prefix, afterSlash, i + 1)
  }

  // The dot at position i ends the package path.
  predicate AcceptsAt(lex: Lexicon, afterSlash: string, i: nat)
    requires i < |afterSlash|
  {
    && afterSlash[i] == '.'
    && afterSlash[..i] != "" && afterSlash[i + 1..] != ""
    && !ContainsAny(afterSlash[..i], {'(', ')'})
    && ParseRuntimeFunctionName(lex, afterSlash[i + 1..]).Some?
  }

  // The text up to and including the last slash, and the text behind it.
  function CutSlash(runtimeName: string): (r: (string, string))
    ensures r.0 + r.1 == runtimeName && '/' !in r.1
    ensures r.0 == "" || r.0[|r.0| - 1] == '/'
  {
    var lastSlash := LastIndex(runtimeName, '/');
    (runtimeName[..lastSlash + 1], runtimeName[lastSlash + 1..])
  }

  method ParsePackageFunctionName(lex: Lexicon, runtimeName: string) returns (r: Option<Split>)
    ensures r == ScanDots(lex, CutSlash(runtimeName).0, CutSlash(runtimeName).1, 0)
  {
    hide ScanDots, CutSlash, LastIndex;
    CutAtSlash(runtimeName);
    ScanEnd(lex, CutSlash(runtimeName).0, "");
    if runtimeName == "" {
      return None;
    }
    var lastSlash := LastIndex(runtimeName, '/');
    var prefix, afterSlash := "", runtimeName;
    if lastSlash >= 0 {
      prefix, afterSlash := runtimeName[..lastSlash + 1], runtimeName[lastSlash + 1..];
    }
    if afterSlash == "" {
      return None;
    }
    r := ScanAfterSlash(lex, prefix, afterSlash);
  }

  lemma {:induction false} CutAtSlash(runtimeName: string)
    ensures var lastSlash := LastIndex(runtimeName, '/');
      CutSlash(runtimeName) == if lastSlash >= 0 then (runtimeName[..lastSlash + 1], runtimeName[lastSlash + 1..]) else ("", runtimeName)
    ensures runtimeName == "" ==> CutSlash(runtimeName).1 == ""
  {
    hide LastIndex;
    assert runtimeName[0..] == runtimeName && runtimeName[..0] == "";
  }

  method ScanAfterSlash(lex: Lexicon, prefix: string, afterSlash: string) returns (r: Option<Split>)
    ensures r == ScanDots(lex, prefix, afterSlash, 0)
  {
    hide ScanDots, ParseRuntimeFunctionName, ContainsAny;
    ScanEnd(lex, prefix, afterSlash);
    var i := 0;
    while i < |afterSlash|
      invariant i <= |afterSlash|
      invariant ScanDots(lex, prefix, afterSlash, 0) == ScanDots(lex, prefix, afterSlash, i)
    {
      ScanStep(lex, prefix, afterSlash, i);
      var at := i;
      i := i + 1;
      if afterSlash[at] != '.' {
        continue;
      }
      var pkgElem, rawName := afterSlash[..at], afterSlash[at + 1..];
      if pkgElem == "" || rawName == "" {
        continue;
      }
      if ContainsAny(pkgElem, {'(', ')'}) {
        continue;
      }
      var funcName := ParseRuntimeFunctionName(lex, rawName);
      if funcName.None? {
        continue;
      }
      return Some(Split(prefix + pkgElem, funcName.value));
    }
    r := None;
  }

  lemma ScanStep(lex: Lexicon, prefix: string, afterSlash: string, i: nat)
    requires i < |afterSlash|
    ensures ScanDots(lex, prefix, afterSlash, i) ==
      if AcceptsAt(lex, afterSlash, i) then Some(Split(prefix + afterSlash[..i], ParseRuntimeFunctionName(lex, afterSlash[i + 1..]).value))
      else ScanDots(lex, prefix, afterSlash, i + 1)
  {
  }

  lemma {:induction false} ScanEnd(lex: Lexicon, prefix: string, afterSlash: string)
    ensures ScanDots(lex, prefix, afterSlash, |afterSlash|) == None
  {
  }

  function Parse(lex: Lexicon, runtimeName: string): Option<Split>
  {
    ScanDots(lex, CutSlash(runtimeName).0, CutSlash(runtimeName).1, 0)
  }

  // runtimeName is a package path, a dot, an identifier and optional type arguments; "elem"
  // is the last path element.
  ghost predicate HasForm(lex: Lexicon, runtimeName: string, prefix: string, elem: string, name: string, tail: string)
  {
    && runtimeName == prefix + elem + "." + name + tail
    && (prefix == "" || prefix[|prefix| - 1] == '/')
    && elem != "" && '/' !in elem && !ContainsAny(elem, {'(', ')'})
    && lex.IsIdentifier(name) && IsTypeArgs(tail) && '/' !in tail
  }

  lemma {:induction false} ScanFindsFirst(lex: Lexicon, prefix: string, afterSlash: string, i: nat, k: nat)
    requires i <= k <= |afterSlash|
    requires forall j :: i <= j < k ==> !AcceptsAt(lex, afterSlash, j)
    ensures k < |afterSlash| && AcceptsAt(lex, afterSlash, k) ==>
      ScanDots(lex, prefix, afterSlash, i) == Some(Split(prefix + afterSlash[..k], ParseRuntimeFunctionName(lex, afterSlash[k + 1..]).value))
    ensures k == |afterSlash| ==> ScanDots(lex, prefix, afterSlash, i) == None
    decreases k - i
  {
    if i < k {
      ScanFindsFirst(lex, prefix, afterSlash, i + 1, k);
    }
  }

  lemma {:induction false} ScanResult(lex: Lexicon, prefix: string, afterSlash: string, i: nat)
    requires i <= |afterSlash|
    ensures var r := ScanDots(lex, prefix, afterSlash, i);
      if r.None? then forall j :: i <= j < |afterSlash| ==> !AcceptsAt(lex, afterSlash, j)
      else exists j :: i <= j < |afterSlash| && AcceptsAt(lex, afterSlash, j) && r.value.path == prefix + afterSlash[..j]
                       && ParseRuntimeFunctionName(lex, afterSlash[j + 1..]) == Some(r.value.name)
    decreases |afterSlash| - i
  {
    if i < |afterSlash| && !AcceptsAt(lex, afterSlash, i) {
      ScanResult(lex, prefix, afterSlash, i + 1);
    }
  }

  lemma LastSlashAt(s: string, k: nat)
    requires k <= |s| && (k == 0 || s[k - 1] == '/') && forall i :: k <= i < |s| ==> s[i] != '/'
    ensures CutSlash(s) == (s[..k], s[k..])
  {
    assert k > 0 ==> s[k - 1] in s;
    assert LastIndex(s, '/') + 1 == k;
  }

  lemma FormCut(lex: Lexicon, s: string, prefix: string, elem: string, name: string, tail: string)
    requires lex.Valid() && HasForm(lex, s, prefix, elem, name, tail)
    ensures CutSlash(s) == (prefix, elem + "." + name + tail)
    ensures AcceptsAt(lex, elem + "." + name + tail, |elem|)
    ensures (elem + "." + name + tail)[..|elem|] == elem
    ensures ParseRuntimeFunctionName(lex, (elem + "." + name + tail)[|elem| + 1..]) == Some(name)
  {
    hide ParseRuntimeFunctionName, CutSlash;
    var rest := elem + "." + name + tail;
    assert s == prefix + rest && s[..|prefix|] == prefix && s[|prefix|..] == rest;
    NoSlashInIdentifier(lex, name);
    assert '/' !in rest;
    forall i | |prefix| <= i < |s| ensures s[i] != '/' {
      assert s[i] == rest[i - |prefix|] && rest[i - |prefix|] in rest;
    }
    LastSlashAt(s, |prefix|);
    assert rest[|elem| + 1..] == name + tail && rest[..|elem|] == elem;
    assert (name + tail)[..|name|] == name && (name + tail)[|name|..] == tail;
    CutAfterName(lex, name + tail, name);
  }

  lemma NoSlashInIdentifier(lex: Lexicon, name: string)
    requires lex.Valid() && lex.IsIdentifier(name)
    ensures '/' !in name
  {
    forall i | 0 <= i < |name| ensures name[i] != '/' {
      assert name[i] in lex.letters || name[i] in lex.digits || name[i] == '_';
    }
  }

  // A dot inside the last path element is passed over: what follows it still holds a dot.
  lemma EarlierDotFails(lex: Lexicon, elem: string, rest: string, j: nat)
    requires lex.Valid() && '[' !in elem && j < |elem|
    ensures !AcceptsAt(lex, elem + "." + rest, j)
  {
    hide ParseRuntimeFunctionName;
    var raw := (elem + "." + rest)[j + 1..];
    var dot := |elem| - j - 1;
    assert raw[dot] == '.' && raw[..dot] == elem[j + 1..];
    forall name | lex.IsIdentifier(name) && name <= raw
      ensures !IsTypeArgs(raw[|name|..])
    {
      NoDotInIdentifier(lex, name, raw, dot);
      assert raw[|name|..][0] == raw[|name|];
      assert |name| < dot ==> raw[|name|] == elem[j + 1 + |name|];
    }
    RuntimeNameForm(lex, raw);
    SomeName(lex, raw);
  }

  lemma SomeName(lex: Lexicon, raw: string)
    ensures ParseRuntimeFunctionName(lex, raw).Some? ==> exists name :: ParseRuntimeFunctionName(lex, raw) == Some(name)
  {
  }

  lemma NoDotInIdentifier(lex: Lexicon, name: string, raw: string, dot: nat)
    requires lex.Valid() && lex.IsIdentifier(name) && name <= raw && dot < |raw| && raw[dot] == '.'
    ensures |name| <= dot
  {
    forall i | 0 <= i < |name| ensures raw[i] != '.' {
      assert name[i] in lex.letters || name[i] in lex.digits || name[i] == '_';
    }
  }

  /** The parser inverts the runtime form, dots in the last path element included. */
  lemma ParseInverts(lex: Lexicon, s: string, prefix: string, elem: string, name: string, tail: string)
    requires lex.Valid() && HasForm(lex, s, prefix, elem, name, tail) && '[' !in elem
    ensures Parse(lex, s) == Some(Split(prefix + elem, name))
  {
    hide ParseRuntimeFunctionName, CutSlash, ScanDots, HasForm, AcceptsAt, Lexicon.IsIdentifier;
    FormCut(lex, s, prefix, elem, name, tail);
    var after := elem + "." + name + tail;
    assert after == elem + "." + (name + tail);
    forall j | 0 <= j < |elem|
      ensures !AcceptsAt(lex, after, j)
    {
      EarlierDotFails(lex, elem, name + tail, j);
    }
    ScanFindsFirst(lex, prefix, after, 0, |elem|);
  }

  // The parts of an accepted name, with the tail that was dropped.
  ghost predicate Rebuilds(lex: Lexicon, s: string, r: Split)
  {
    exists prefix, elem, tail :: HasForm(lex, s, prefix, elem, r.name, tail) && r.path == prefix + elem
  }

  /** Whatever is accepted rebuilds from its parts. */
  lemma AcceptedRebuilds(lex: Lexicon, s: string)
    requires lex.Valid() && Parse(lex, s).Some?
    ensures Rebuilds(lex, s, Parse(lex, s).value)
  {
    hide ParseRuntimeFunctionName, CutSlash, ScanDots, HasForm, ContainsAny;
    var (prefix, after) := CutSlash(s);
    ScanResult(lex, prefix, after, 0);
    var r := Parse(lex, s).value;
    var j: nat :| 0 <= j < |after| && AcceptsAt(lex, after, j) && r.path == prefix + after[..j]
                  && ParseRuntimeFunctionName(lex, after[j + 1..]) == Some(r.name);
    var tail := AcceptedForm(lex, s, prefix, after, j, r.name);
  }

  lemma AcceptedForm(lex: Lexicon, s: string, prefix: string, after: string, j: nat, name: string) returns (tail: string)
    requires lex.Valid() && CutSlash(s) == (prefix, after) && j < |after| && AcceptsAt(lex, after, j)
    requires ParseRuntimeFunctionName(lex, after[j + 1..]) == Some(name)
    ensures HasForm(lex, s, prefix, after[..j], name, tail)
  {
    hide ParseRuntimeFunctionName, ContainsAny, CutSlash;
    var raw := after[j + 1..];
    RuntimeNameForm(lex, raw);
    CutParts(s);
    Reassemble(s, prefix, after, j, name);
    tail := raw[|name|..];
    assert forall c :: c in tail || c in after[..j] ==> c in after;
  }

  lemma CutParts(s: string)
    ensures var (prefix, after) := CutSlash(s);
      s == prefix + after && '/' !in after && (prefix == "" || prefix[|prefix| - 1] == '/')
  {
  }

  lemma Reassemble(s: string, prefix: string, after: string, j: nat, name: string)
    requires s == prefix + after && j < |after| && after[j] == '.' && name <= after[j + 1..]
    ensures s == prefix + after[..j] + "." + name + after[j + 1..][|name|..]
  {
    var raw := after[j + 1..];
    assert raw == name + raw[|name|..];
    assert after == after[..j] + "." + raw;
  }

  /** Exactly the names of the runtime form are accepted. */
  lemma AcceptsExactly(lex: Lexicon, s: string)
    requires lex.Valid()
    ensures Parse(lex, s).Some? <==> exists prefix, elem, name, tail :: HasForm(lex, s, prefix, elem, name, tail)
  {
    if Parse(lex, s).Some? {
      AcceptedRebuilds(lex, s);
    }
    forall prefix, elem, name, tail | HasForm(lex, s, prefix, elem, name, tail)
      ensures Parse(lex, s).Some?
    {
      FormAccepted(lex, s, prefix, elem, name, tail);
    }
  }

  lemma FormAccepted(lex: Lexicon, s: string, prefix: string, elem: string, name: string, tail: string)
    requires lex.Valid() && HasForm(lex, s, prefix, elem, name, tail)
    ensures Parse(lex, s).Some?
  {
    hide ParseRuntimeFunctionName, CutSlash, ScanDots, HasForm, AcceptsAt, Lexicon.IsIdentifier;
    FormCut(lex, s, prefix, elem, name, tail);
    ScanResult(lex, prefix, elem + "." + name + tail, 0);
  }
}
