/** Lists that are picked out of other lists: which entries, and in which order. */
module Positions {

  ghost predicate Increasing(at: seq<nat>)
  {
    forall k, l :: 0 <= k < l < |at| ==> at[k] < at[l]
  }

  // r lists the entries of s at the positions "at", in the order of s.
  ghost predicate Picks<T>(s: seq<T>, at: seq<nat>, r: seq<T>)
  {
    Increasing(at) && |at| == |r| && forall k :: 0 <= k < |r| ==> at[k] < |s| && r[k] == s[at[k]]
  }

  lemma PicksMore<T>(s: seq<T>, at: seq<nat>, r: seq<T>, x: T)
    requires Picks(s, at, r)
    ensures Picks(s + [x], at, r) && Picks(s + [x], at + [|s|], r + [x])
  {
  }
}
