// The one allocator behaviour the containers rely on: realloc to a larger
// block keeps the old contents at the front.

module Allocation {
  /** realloc(from, n) for n no smaller than the old block: a fresh array of
      n slots whose first from.Length slots are a copy of from; the slots
      past them hold `fill` (their contents are unspecified in C). */
  method Reallocate<T>(from: array<T>, n: nat, fill: T) returns (to: array<T>)
    requires from.Length <= n
    ensures fresh(to) && to.Length == n
    ensures to[..from.Length] == from[..]
  {
    to := new T[n](_ => fill);
    var k := 0;
    while k < from.Length
      invariant 0 <= k <= from.Length
      invariant to[..k] == from[..k]
    {
      to[k] := from[k];
      k := k + 1;
    }
  }
}
