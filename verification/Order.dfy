/** Go's string order and slices.Sort on strings. */
module Order {

  predicate Leq(a: string, b: string)
  {
    a == "" || (b != "" && (a[0] < b[0] || (a[0] == b[0] && Leq(a[1..], b[1..]))))
  }

  predicate Less(a: string, b: string)
  {
    Leq(a, b) && a != b
  }

  lemma {:induction false} LeqTotal(a: string, b: string)
    ensures Leq(a, b) || Leq(b, a)
    ensures Leq(a, b) && Leq(b, a) ==> a == b
    ensures Leq(a, a)
  {
    if a != "" {
      LeqTotal(a[1..], a[1..]);
      if b != "" {
        LeqTotal(a[1..], b[1..]);
        if a[0] == b[0] && a[1..] == b[1..] {
          assert a == [a[0]] + a[1..] && b == [b[0]] + b[1..];
        }
      }
    }
  }

  lemma {:induction false} LeqTransitive(a: string, b: string, c: string)
    requires Leq(a, b) && Leq(b, c)
    ensures Leq(a, c)
  {
    if a != "" && a[0] == b[0] && b[0] == c[0] {
      LeqTransitive(a[1..], b[1..], c[1..]);
    }
  }

  // They agree up to index i, where a ends or has the smaller character.
  predicate SmallerAt(a: string, b: string, i: nat)
  {
    i <= |a| && i < |b| && a[..i] == b[..i] && (i == |a| || a[i] < b[i])
  }

  /** Go's order on strings: a is less than b if it is a proper prefix of b, or has the smaller
      character at the first index where they differ, and not otherwise. */
  lemma {:induction false} LessMeans(a: string, b: string)
    ensures Less(a, b) <==> exists i: nat :: SmallerAt(a, b, i)
  {
    if a == "" || b == "" || a[0] != b[0] {
      LessAtOnce(a, b);
    } else {
      LessMeans(a[1..], b[1..]);
      LessAfterFirst(a, b);
      assert a == [a[0]] + a[1..] && b == [b[0]] + b[1..];
    }
  }

  lemma {:induction false} LessAtOnce(a: string, b: string)
    requires a == "" || b == "" || a[0] != b[0]
    ensures Less(a, b) <==> exists i: nat :: SmallerAt(a, b, i)
  {
    if Less(a, b) {
      assert SmallerAt(a, b, 0);
    }
    if i: nat :| SmallerAt(a, b, i) {
      AgreesAtFirst(a, b, i);
    }
  }

  lemma AgreesAtFirst(a: string, b: string, i: nat)
    requires SmallerAt(a, b, i)
    ensures i > 0 ==> a != "" && b != "" && a[0] == b[0]
  {
    if i > 0 {
      assert a[..i][0] == b[..i][0];
    }
  }

  lemma LessAfterFirst(a: string, b: string)
    requires a != "" && b != "" && a[0] == b[0]
    ensures (exists i: nat :: SmallerAt(a, b, i)) <==> exists i: nat :: SmallerAt(a[1..], b[1..], i)
  {
    if i: nat :| SmallerAt(a, b, i) {
      assert a[..i][1..] == a[1..][..i - 1] && b[..i][1..] == b[1..][..i - 1];
      assert SmallerAt(a[1..], b[1..], i - 1);
    }
    if i: nat :| SmallerAt(a[1..], b[1..], i) {
      assert a[..i + 1] == [a[0]] + a[1..][..i] && b[..i + 1] == [b[0]] + b[1..][..i];
      assert SmallerAt(a, b, i + 1);
    }
  }

  ghost predicate Sorted(s: seq<string>)
  {
    forall i, j :: 0 <= i < j < |s| ==> Leq(s[i], s[j])
  }

  ghost predicate StrictlySorted(s: seq<string>)
  {
    forall i, j :: 0 <= i < j < |s| ==> Less(s[i], s[j])
  }

  function Insert(x: string, s: seq<string>): (r: seq<string>)
    requires Sorted(s)
    ensures Sorted(r) && multiset(r) == multiset(s) + multiset{x}
  {
    if s == [] then [x]
    else if Leq(x, s[0]) then InsertFront(x, s); [x] + s
    else
      assert s == [s[0]] + s[1..];
      var r := [s[0]] + Insert(x, s[1..]);
      InsertBack(x, s, Insert(x, s[1..]));
      r
  }

  lemma {:induction false} InsertFront(x: string, s: seq<string>)
    requires Sorted(s) && s != [] && Leq(x, s[0])
    ensures Sorted([x] + s)
  {
    forall j | 0 < j < |[x] + s| ensures Leq(x, ([x] + s)[j]) {
      if j > 1 { LeqTransitive(x, s[0], s[j - 1]); }
    }
  }

  lemma {:induction false} InsertBack(x: string, s: seq<string>, rest: seq<string>)
    requires Sorted(s) && s != [] && !Leq(x, s[0])
    requires Sorted(rest) && multiset(rest) == multiset(s[1..]) + multiset{x}
    ensures Sorted([s[0]] + rest)
  {
    LeqTotal(x, s[0]);
    forall j | 0 <= j < |rest| ensures Leq(s[0], rest[j]) {
      assert rest[j] in multiset(rest);
      if rest[j] != x {
        assert rest[j] in multiset(s[1..]);
        var k :| 0 <= k < |s[1..]| && s[1..][k] == rest[j];
        assert Leq(s[0], s[k + 1]);
      }
    }
  }

  /** slices.Sort: the sorted rearrangement, which is unique (see SortedUnique). */
  function Sort(s: seq<string>): (r: seq<string>)
    ensures Sorted(r) && multiset(r) == multiset(s)
  {
    if s == [] then []
    else
      assert s == [s[0]] + s[1..];
      Insert(s[0], Sort(s[1..]))
  }

  lemma {:induction false} SortedUnique(a: seq<string>, b: seq<string>)
    requires Sorted(a) && Sorted(b) && multiset(a) == multiset(b)
    ensures a == b
  {
    hide Leq;
    assert |a| == |multiset(a)| == |multiset(b)| == |b|;
    if a != [] {
      SameHead(a, b);
      WithoutHead(a);
      WithoutHead(b);
      SortedUnique(a[1..], b[1..]);
    }
  }

  lemma WithoutHead(s: seq<string>)
    requires s != []
    ensures s == [s[0]] + s[1..] && multiset(s[1..]) == multiset(s) - multiset{s[0]}
  {
    assert s == [s[0]] + s[1..];
  }

  lemma SameHead(a: seq<string>, b: seq<string>)
    requires Sorted(a) && Sorted(b) && multiset(a) == multiset(b) && a != [] && b != []
    ensures a[0] == b[0]
  {
    hide Leq;
    assert a[0] in multiset(b) && b[0] in multiset(a);
    var i :| 0 <= i < |b| && b[i] == a[0];
    var j :| 0 <= j < |a| && a[j] == b[0];
    LeqTotal(a[0], b[0]);
    LeqTotal(a[0], a[0]);
  }

  lemma TwoPlaces<T>(s: seq<T>, i: nat, j: nat)
    requires i < j < |s|
    ensures multiset(s)[s[i]] >= if s[i] == s[j] then 2 else 1
  {
    assert s == s[..i] + [s[i]] + s[i + 1..j] + [s[j]] + s[j + 1..];
  }

  lemma SortedDistinct(s: seq<string>)
    requires Sorted(s) && forall x :: multiset(s)[x] <= 1
    ensures StrictlySorted(s)
  {
    forall i, j | 0 <= i < j < |s| ensures s[i] != s[j] {
      TwoPlaces(s, i, j);
    }
  }

  /** Keys of a Go map, gathered in any iteration order and sorted. The result does not
      depend on that order. */
  method SortedKeys<V>(m: map<string, V>) returns (keys: seq<string>)
    ensures StrictlySorted(keys) && forall k :: k in keys <==> k in m
  {
    keys := [];
    var left := m.Keys;
    while left != {}
      invariant left <= m.Keys
      invariant forall k :: multiset(keys)[k] == if k in m && k !in left then 1 else 0
      decreases left
    {
      var k :| k in left;
      keys, left := keys + [k], left - {k};
    }
    ghost var gathered := keys;
    keys := Sort(keys);
    SortedDistinct(keys);
    assert forall k :: k in keys <==> k in multiset(gathered);
  }

  lemma StrictlySortedUnique(a: seq<string>, b: seq<string>)
    requires StrictlySorted(a) && StrictlySorted(b) && forall k :: k in a <==> k in b
    ensures a == b
  {
    forall x ensures multiset(a)[x] == multiset(b)[x] {
      DistinctCount(a, x);
      DistinctCount(b, x);
    }
    SortedUnique(a, b);
  }

  lemma {:induction false} DistinctCount(s: seq<string>, x: string)
    requires StrictlySorted(s)
    ensures multiset(s)[x] == if x in s then 1 else 0
  {
    if s != [] {
      var m := |s| - 1;
      assert s == s[..m] + [s[m]];
      DistinctCount(s[..m], x);
    }
  }
}
