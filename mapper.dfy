/**
 * `mapWithConcurrency`: a result array of the items' length is filled through
 * a cursor that every worker advances before it calls `fn`. Each index is
 * taken by exactly one worker, so the array does not depend on how the workers
 * interleave; the model runs the workers' loop one call after the other.
 */
module Mapper {

  /** What a call of `fn` does: return a value, or throw with a message. */
  datatype Outcome<R> = Returned(value: R) | Threw(message: string)

  /**
   * A slot of the result array: still a hole, the value `fn` returned, or the
   * `{ error: String(e) }` record that replaces a throw.
   */
  datatype Slot<R> = Hole | Filled(value: R) | Error(message: string)

  function SlotOf<R>(o: Outcome<R>): (s: Slot<R>)
    ensures s != Hole
  {
    match o
    case Returned(v) => Filled(v)
    case Threw(m) => Error(m)
  }

  /**
   * Slot `idx` of the result holds what `fn(items[idx], idx)` gave, so the
   * results come in the order of the items and none is left a hole.
   */
  method MapWithConcurrency<T, R>(items: seq<T>, fn: (T, nat) -> Outcome<R>) returns (results: seq<Slot<R>>)
    ensures |results| == |items|
    ensures forall idx :: 0 <= idx < |items| ==> results[idx] == SlotOf(fn(items[idx], idx))
  {
    var slots := new Slot<R>[|items|](_ => Hole);
    var i := 0;
    ghost var taken: set<nat> := {};
    while i < |items|
      invariant 0 <= i <= |items| == slots.Length
      invariant forall k: nat :: k in taken <==> k < i
      invariant forall k :: 0 <= k < i ==> slots[k] == SlotOf(fn(items[k], k))
      invariant forall k :: i <= k < |items| ==> slots[k] == Hole
    {
      var idx := i;
      i := i + 1;
      assert idx !in taken && slots[idx] == Hole;
      slots[idx] := SlotOf(fn(items[idx], idx));
      taken := taken + {idx};
    }
    results := slots[..];
  }
}
