module Wrappers {
  datatype Option<+T> = None | Some(value: T)

  // The indices of a list of n entries.
  function Indices(n: nat): (r: set<nat>)
    ensures |r| == n && forall i: nat :: i in r <==> i < n
  {
    if n == 0 then {} else Indices(n - 1) + {n - 1}
  }
}
