/**
 * What several components share: optional values and the reversal of a sequence.
 */
module Basics {
  datatype Option<T> = None | Some(value: T)

  function Reversed<T>(s: seq<T>): seq<T>
  {
    if s == [] then [] else [s[|s| - 1]] + Reversed(s[..|s| - 1])
  }

  /** A sequence and its reversal have the same elements. */
  lemma {:induction false} ReversedSame<T>(s: seq<T>)
    ensures forall x :: x in Reversed(s) <==> x in s
  {
    if s != [] {
      ReversedSame(s[..|s| - 1]);
      assert s == s[..|s| - 1] + [s[|s| - 1]];
    }
  }
}
