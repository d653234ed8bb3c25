/** Searching a sequence: the one first-occurrence search the string and list code share. */
module Sequences {

  /** The first index of x in xs, or |xs| when x does not occur. */
  function IndexOf<T(==)>(xs: seq<T>, x: T): (i: nat)
    ensures i <= |xs| && forall k :: 0 <= k < i ==> xs[k] != x
    ensures i < |xs| ==> xs[i] == x
  {
    if xs == [] then 0 else if xs[0] == x then 0 else 1 + IndexOf(xs[1..], x)
  }

  /** The search stops at the first occurrence. */
  lemma {:induction false} IndexOfAt<T>(xs: seq<T>, x: T, i: nat)
    requires i < |xs| && xs[i] == x && forall k :: 0 <= k < i ==> xs[k] != x
    ensures IndexOf(xs, x) == i
    decreases i
  {
    if i > 0 {
      IndexOfAt(xs[1..], x, i - 1);
    }
  }
}
