/** Go slices: a length over a backing array that other slices may share. */
module Slices {
  /** A sequence without its element i. */
  function Without<T>(items: seq<T>, i: nat): seq<T>
    requires i < |items|
  {
    items[..i] + items[i + 1..]
  }

  datatype Slice<T> = Slice(backing: array<T>, length: nat) {
    ghost predicate Valid() {
      length <= backing.Length
    }

    ghost function Contents(): seq<T>
      requires Valid()
      reads backing
    {
      backing[..length]
    }
  }

  /** Room for n elements and some more, so that the next append writes in place. */
  function Capacity(n: nat): (capacity: nat)
    ensures capacity >= n
  {
    2 * n
  }

  method Empty<T(0)>() returns (s: Slice<T>)
    ensures s.Valid() && fresh(s.backing) && s.Contents() == []
  {
    var backing := new T[0];
    s := Slice(backing, 0);
  }

  /** append([]T(nil), s...): the same elements in an array of their own. */
  method Clone<T(0)>(s: Slice<T>) returns (copy: Slice<T>)
    requires s.Valid()
    ensures copy.Valid() && fresh(copy.backing) && copy.Contents() == s.Contents()
  {
    copy := Grown(s, s.length);
  }

  method Grown<T(0)>(s: Slice<T>, length: nat) returns (copy: Slice<T>)
    requires s.Valid() && s.length <= length
    ensures copy.Valid() && copy.length == length && fresh(copy.backing)
    ensures copy.Contents()[..s.length] == s.Contents()
  {
    var backing := new T[Capacity(length)];
    for i := 0 to s.length
      invariant backing[..i] == s.backing[..i]
    {
      backing[i] := s.backing[i];
    }
    copy := Slice(backing, length);
  }

  /** append(s, x): in place when the array has room, which only slices longer than s can notice. */
  method Append<T(0)>(s: Slice<T>, x: T) returns (longer: Slice<T>)
    requires s.Valid()
    modifies s.backing
    ensures longer.Valid() && longer.Contents() == old(s.Contents()) + [x]
    ensures longer.backing == s.backing || fresh(longer.backing)
    ensures s.Contents() == old(s.Contents())
  {
    if s.length < s.backing.Length {
      s.backing[s.length] := x;
      longer := Slice(s.backing, s.length + 1);
    } else {
      longer := Grown(s, s.length + 1);
      longer.backing[s.length] := x;
    }
  }

  /**
   * append(s[:i], s[i+1:]...): the elements behind i move one place down in the same array.  A slice that still has
   * the old length sees them moved, and the last one twice.
   */
  method RemoveAt<T>(s: Slice<T>, i: nat) returns (shorter: Slice<T>)
    requires s.Valid() && i < s.length
    modifies s.backing
    ensures shorter == Slice(s.backing, s.length - 1)
    ensures shorter.Contents() == Without(old(s.Contents()), i)
    ensures s.Contents() == Without(old(s.Contents()), i) + [old(s.backing[s.length - 1])]
  {
    for j := i to s.length - 1
      invariant s.backing[..i] == old(s.backing[..i])
      invariant forall k | i <= k < j :: s.backing[k] == old(s.backing[k + 1])
      invariant forall k | j <= k < s.length :: s.backing[k] == old(s.backing[k])
    {
      s.backing[j] := s.backing[j + 1];
    }
    shorter := Slice(s.backing, s.length - 1);
  }
}
