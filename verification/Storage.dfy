/** Go slices: a length over a backing array. Appending writes into the array while there is
    room, so slices over one array can overwrite each other's items. */
module Storage {

  datatype Slice<T> = Slice(data: array<T>, len: nat)

  predicate InBounds<T>(s: Slice<T>)
  {
    s.len <= s.data.Length
  }

  function Items<T>(s: Slice<T>): seq<T>
    requires InBounds(s)
    reads s.data
  {
    s.data[..s.len]
  }

  // The capacity of a new array is up to the runtime.
  method Allocate<T(0)>(n: nat) returns (data: array<T>)
    ensures fresh(data) && data.Length >= n
  {
    var capacity: nat :| capacity >= n;
    data := new T[capacity];
  }

  method Append<T(0)>(s: Slice<T>, x: T) returns (r: Slice<T>)
    requires InBounds(s)
    modifies s.data
    ensures InBounds(r) && Items(r) == old(Items(s)) + [x]
    ensures if s.len < s.data.Length then r.data == s.data else fresh(r.data)
    ensures forall i :: 0 <= i < s.data.Length && i != s.len ==> s.data[i] == old(s.data[i])
  {
    if s.len < s.data.Length {
      s.data[s.len] := x;
      return Slice(s.data, s.len + 1);
    }
    var data := Allocate(s.len + 1);
    forall i | 0 <= i < s.len {
      data[i] := s.data[i];
    }
    data[s.len] := x;
    r := Slice(data, s.len + 1);
  }

  // append([]T(nil), s...)
  method Copy<T(0)>(s: Slice<T>) returns (r: Slice<T>)
    requires InBounds(s)
    ensures InBounds(r) && fresh(r.data) && Items(r) == Items(s)
  {
    var data := Allocate(s.len);
    forall i | 0 <= i < s.len {
      data[i] := s.data[i];
    }
    r := Slice(data, s.len);
  }

  method Nil<T(0)>() returns (r: Slice<T>)
    ensures InBounds(r) && fresh(r.data) && Items(r) == []
  {
    var data := new T[0];
    r := Slice(data, 0);
  }
}
