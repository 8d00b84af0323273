/**
 * A fixed-capacity vector in the style of `heapless::Vec<T, N>`: it never
 * holds more than `N` elements, `push` fails (rather than growing) when the
 * vector is full, and `reverse` and `clear` work on the vector in place.
 */
module BoundedVec {

  /** The sequence `s` read back to front. */
  function Reversed<T>(s: seq<T>): (r: seq<T>)
    ensures |r| == |s|
  {
    if s == [] then [] else [s[|s| - 1]] + Reversed(s[..|s| - 1])
  }

  lemma {:induction false} ReversedAt<T>(s: seq<T>, k: nat)
    requires k < |s|
    ensures Reversed(s)[k] == s[|s| - 1 - k]
  {
    if k > 0 {
      ReversedAt(s[..|s| - 1], k - 1);
    }
  }

  /** Reversing `[x] + s` puts `x` last. */
  lemma {:induction false} ReversedCons<T>(x: T, s: seq<T>)
    ensures Reversed([x] + s) == Reversed(s) + [x]
  {
    var r, q := Reversed([x] + s), Reversed(s) + [x];
    forall k | 0 <= k < |r|
      ensures r[k] == q[k]
    {
      ReversedAt([x] + s, k);
      if k < |s| {
        ReversedAt(s, k);
      }
    }
  }

  /** A vector of capacity `Capacity()`; `elems` are the elements held, in order. */
  class Vec<T> {
    var elems: seq<T>
    const capacity: nat

    ghost predicate Valid()
      reads this
    {
      |elems| <= capacity
    }

    /** The compile-time capacity `N`. */
    function Capacity(): nat
    {
      capacity
    }

    /** `as_slice`: the elements pushed so far. */
    function Contents(): seq<T>
      reads this
    {
      elems
    }

    /** `Vec::new()`: an empty vector with room for `capacity` elements. */
    constructor (capacity: nat)
      ensures Valid()
      ensures Capacity() == capacity && Contents() == []
    {
      this.capacity := capacity;
      elems := [];
    }

    /** `push`: appends `x` when there is room, and reports whether it did. */
    method Push(x: T) returns (ok: bool)
      requires Valid()
      modifies this
      ensures Valid()
      ensures ok <==> |old(Contents())| < Capacity()
      ensures Contents() == if ok then old(Contents()) + [x] else old(Contents())
    {
      ok := |elems| < capacity;
      if ok {
        elems := elems + [x];
      }
    }

    /** `clear`: drops every element; the capacity is kept. */
    method Clear()
      requires Valid()
      modifies this
      ensures Valid()
      ensures Contents() == []
    {
      elems := [];
    }

    /** `reverse`: swaps the elements pairwise from both ends, in place. */
    method Reverse()
      requires Valid()
      modifies this
      ensures Valid()
      ensures Contents() == Reversed(old(Contents()))
    {
      ghost var was := elems;
      var n := |elems|;
      var i := 0;
      while i < n / 2
        invariant 0 <= i <= n / 2 && |elems| == n
        invariant forall k :: 0 <= k < i ==> elems[k] == was[n - 1 - k] && elems[n - 1 - k] == was[k]
        invariant forall k :: i <= k < n - i ==> elems[k] == was[k]
      {
        elems := elems[i := elems[n - 1 - i]][n - 1 - i := elems[i]];
        i := i + 1;
      }
      forall k | 0 <= k < n
        ensures elems[k] == Reversed(was)[k]
      {
        ReversedAt(was, k);
      }
    }
  }
}
