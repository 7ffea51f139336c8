/** buildRunPattern of internal/execution/run.go, and how to read its result back. */
module RunPattern {
  import opened Order
  import opened Wrappers

  const META := {'\\', '.', '+', '*', '?', '(', ')', '|', '[', ']', '{', '}', '^', '$'}

  /** regexp.QuoteMeta */
  function QuoteMeta(s: string): string
  {
    if s == "" then ""
    else (if s[0] in META then ['\\', s[0]] else [s[0]]) + QuoteMeta(s[1..])
  }

  function Quoted(names: seq<string>): (r: seq<string>)
    ensures |r| == |names|
  {
    seq(|names|, i requires 0 <= i < |names| => QuoteMeta(names[i]))
  }

  function NonEmpty(names: seq<string>): (r: seq<string>)
    ensures forall n :: n in r <==> n in names && n != ""
  {
    if names == [] then []
    else
      var last := names[|names| - 1];
      NonEmpty(names[..|names| - 1]) + if last == "" then [] else [last]
  }

  lemma {:induction false} NonEmptyKeeps(names: seq<string>, n: string)
    ensures multiset(NonEmpty(names))[n] == if n == "" then 0 else multiset(names)[n]
  {
    if names != [] {
      assert names == names[..|names| - 1] + [names[|names| - 1]];
      NonEmptyKeeps(names[..|names| - 1], n);
    }
  }

  /** strings.Join with "|" */
  function JoinBar(parts: seq<string>): string
  {
    if parts == [] then ""
    else if |parts| == 1 then parts[0]
    else parts[0] + "|" + JoinBar(parts[1..])
  }

  function Pattern(names: seq<string>): string
  {
    "^(" + JoinBar(Quoted(NonEmpty(Sort(names)))) + ")$"
  }

  method BuildRunPattern(testNames: seq<string>) returns (pattern: string)
    ensures pattern == Pattern(testNames)
  {
    var names := Sort(testNames);
    var quoted := [];
    for i := 0 to |names|
      invariant quoted == Quoted(NonEmpty(names[..i]))
    {
      QuoteOneMore(names, i);
      if names[i] == "" {
        continue;
      }
      quoted := quoted + [QuoteMeta(names[i])];
    }
    assert names[..|names|] == names;
    pattern := "^(" + JoinBar(quoted) + ")$";
  }

  lemma QuoteOneMore(names: seq<string>, i: nat)
    requires i < |names|
    ensures Quoted(NonEmpty(names[..i + 1])) ==
            Quoted(NonEmpty(names[..i])) + if names[i] == "" then [] else [QuoteMeta(names[i])]
  {
    assert names[..i + 1][..i] == names[..i];
  }

  // The characters that mean something in a regular expression, as its reader sees them.
  predicate IsOperator(c: char)
  {
    c == '\\' || c == '.' || c == '+' || c == '*' || c == '?' || c == '(' || c == ')' || c == '|'
    || c == '[' || c == ']' || c == '{' || c == '}' || c == '^' || c == '$'
  }

  /** QuoteMeta escapes exactly the fourteen characters that mean something ... */
  lemma {:induction false} QuoteMetaEscapes(c: char)
    ensures QuoteMeta([c]) == if c in "\\.+*?()|[]{}^$" then ['\\', c] else [c]
    ensures IsOperator(c) <==> c in "\\.+*?()|[]{}^$"
  {
    assert [c][1..] == "";
  }

  /** ... and works character by character. */
  lemma {:induction false} QuoteMetaJoins(s: string, t: string)
    ensures QuoteMeta(s + t) == QuoteMeta(s) + QuoteMeta(t)
  {
    if s == "" {
      assert s + t == t;
    } else {
      assert s + t == [s[0]] + (s[1..] + t);
      QuoteMetaJoins(s[1..], t);
    }
  }

  // The alternatives of an alternation of literals; "cur" is the one being read. Any other
  // operator that is not escaped makes the expression something else than that.
  function Alternatives(s: string, cur: string): Option<seq<string>>
  {
    if s == "" then Some([cur])
    else if s[0] == '\\' then
      if |s| == 1 then None else Alternatives(s[2..], cur + [s[1]])
    else if s[0] == '|' then
      var rest := Alternatives(s[1..], "");
      if rest.None? then None else Some([cur] + rest.value)
    else if IsOperator(s[0]) then None
    else Alternatives(s[1..], cur + [s[0]])
  }

  predicate Anchored(pattern: string)
  {
    |pattern| >= 4 && pattern[..2] == "^(" && pattern[|pattern| - 2..] == ")$"
  }

  // The test names a "-run" pattern of this form selects.
  function ReadBack(pattern: string): Option<seq<string>>
    requires Anchored(pattern)
  {
    Alternatives(pattern[2..|pattern| - 2], "")
  }

  // A character that QuoteMeta has dealt with is read back as itself.
  lemma {:induction false} ReadOne(c: char, tail: string, cur: string)
    ensures Alternatives((if c in META then ['\\', c] else [c]) + tail, cur) == Alternatives(tail, cur + [c])
  {
    var s := (if c in META then ['\\', c] else [c]) + tail;
    if c in META {
      assert s[0] == '\\' && s[1] == c && s[2..] == tail;
    } else {
      assert s[0] == c && !IsOperator(c) && s[1..] == tail;
    }
  }

  lemma Associates(a: string, b: string, c: string)
    ensures a + b + c == a + (b + c)
  {
  }

  lemma {:induction false} QuoteFirst(name: string)
    requires name != ""
    ensures QuoteMeta(name) == (if name[0] in META then ['\\', name[0]] else [name[0]]) + QuoteMeta(name[1..])
  {
  }

  lemma FirstAndRest(s: string)
    requires s != ""
    ensures s == [s[0]] + s[1..]
  {
  }

  lemma {:induction false} ReadQuoted(name: string, rest: string, cur: string)
    ensures Alternatives(QuoteMeta(name) + rest, cur) == Alternatives(rest, cur + name)
  {
    if name == "" {
      assert QuoteMeta(name) + rest == rest && cur + name == cur;
    } else {
      hide Alternatives, QuoteMeta;
      var quoted, tail := if name[0] in META then ['\\', name[0]] else [name[0]], QuoteMeta(name[1..]);
      QuoteFirst(name);
      FirstAndRest(name);
      Associates(quoted, tail, rest);
      ReadOne(name[0], tail + rest, cur);
      ReadQuoted(name[1..], rest, cur + [name[0]]);
      Associates(cur, [name[0]], name[1..]);
    }
  }

  lemma {:induction false} ReadJoined(names: seq<string>)
    requires names != []
    ensures Alternatives(JoinBar(Quoted(names)), "") == Some(names)
  {
    var q := QuoteMeta(names[0]);
    if |names| == 1 {
      ReadQuoted(names[0], "", "");
      assert q + "" == q && "" + names[0] == names[0] && names == [names[0]];
    } else {
      assert Quoted(names)[1..] == Quoted(names[1..]);
      var rest := "|" + JoinBar(Quoted(names[1..]));
      assert JoinBar(Quoted(names)) == q + rest;
      ReadQuoted(names[0], rest, "");
      assert rest[1..] == JoinBar(Quoted(names[1..]));
      assert "" + names[0] == names[0];
      ReadJoined(names[1..]);
      assert names == [names[0]] + names[1..];
    }
  }

  lemma {:induction false} InsideAnchors(inner: string)
    ensures var pattern := "^(" + inner + ")$"; Anchored(pattern) && ReadBack(pattern) == Alternatives(inner, "")
  {
    hide Alternatives;
    assert ("^(" + inner + ")$")[2..|inner| + 2] == inner;
  }

  lemma {:induction false} KeptSome(names: seq<string>)
    ensures NonEmpty(Sort(names)) != [] <==> exists n :: n in names && n != ""
  {
    hide NonEmpty, Sort;
    var kept := NonEmpty(Sort(names));
    assert forall n :: n in names <==> n in multiset(names);
    assert forall n :: n in Sort(names) <==> n in multiset(Sort(names));
    if kept != [] {
      assert kept[0] in kept;
    }
  }

  /** Reading the pattern back gives exactly the sorted non-empty names with their
      multiplicity, if and only if there is a non-empty name. Otherwise the pattern is
      "^()$", which stands for the one name "". */
  lemma {:induction false} PatternReadsBack(names: seq<string>)
    ensures Anchored(Pattern(names))
    ensures ReadBack(Pattern(names)) == Some(NonEmpty(Sort(names))) <==> exists n :: n in names && n != ""
    ensures (forall n :: n in names ==> n == "") ==> ReadBack(Pattern(names)) == Some([""])
  {
    hide NonEmpty, Sort, ReadBack, Anchored, Quoted;
    var kept := NonEmpty(Sort(names));
    KeptSome(names);
    InsideAnchors(JoinBar(Quoted(kept)));
    if kept != [] {
      ReadJoined(kept);
    }
  }
}
