/**
 Callbacks that take turns between the two halves of a buffer, as in the play and record
 interrupts of the AC97 and AD/DA drivers.
 */
module DoubleBuffer {

  /** Whose turn it is after n callbacks. */
  function Turn<T>(lower: T, upper: T, n: nat): T {
    if n % 2 == 1 then upper else lower
  }

  predicate Alternates<T(==)>(lower: T, upper: T, calls: seq<T>) {
    forall i :: 0 <= i < |calls| ==> calls[i] == Turn(lower, upper, i)
  }

  lemma AlternatesGrows<T>(lower: T, upper: T, calls: seq<T>)
    requires Alternates(lower, upper, calls)
    ensures Alternates(lower, upper, calls + [Turn(lower, upper, |calls|)])
  {
  }
}
