// Places in a circular buffer, reached by steps of at most one turn.

module Circular {

  function Wrap(i: nat, length: nat): nat {
    if i >= length then i - length else i
  }

  // The place `i` steps on from `start`, for i up to one turn.
  function Place(start: nat, i: nat, length: nat): nat {
    Wrap(start + i, length)
  }

  lemma PlacesDiffer(start: nat, i: nat, j: nat, length: nat)
    requires start < length && i < length && j < length && i != j
    ensures Place(start, i, length) != Place(start, j, length)
  {
  }
}
