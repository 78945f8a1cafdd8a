/** Ranges of iteration numbers. */
module Spans {

  function Span(a: nat, b: nat): (s: set<nat>)
    ensures forall g :: g in s <==> a <= g < b
    decreases b
  {
    if a >= b then {} else Span(a, b - 1) + {b - 1}
  }
}
