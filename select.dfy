/**
 * Choosing the one candidate that gets enriched: candidates below the
 * confidence threshold are dropped, and of the rest the first one with the
 * highest confidence wins.
 */
module Select {
  import opened Text
  import opened Extract

  /** `CONFIDENCE_THRESHOLD`, 0.9, in hundredths. */
  const Threshold: nat := 90

  /** `all.filter(it => it.confidence >= CONFIDENCE_THRESHOLD)`. */
  function Confident(all: seq<Entity>): (r: seq<Entity>)
    ensures forall e :: e in r <==> e in all && e.confidence >= Threshold
    ensures |r| <= |all|
  {
    if all == [] then []
    else (if all[0].confidence >= Threshold then [all[0]] else []) + Confident(all[1..])
  }

  /** The filter works element by element: it keeps the order and the repetitions of its input. */
  lemma {:induction false} ConfidentAppend(a: seq<Entity>, b: seq<Entity>)
    ensures Confident(a + b) == Confident(a) + Confident(b)
  {
    if a == [] {
      assert a + b == b;
    } else {
      assert (a + b)[0] == a[0] && (a + b)[1..] == a[1..] + b;
      ConfidentAppend(a[1..], b);
    }
  }

  /** One candidate is kept exactly when it reaches the threshold. */
  lemma ConfidentOne(e: Entity)
    ensures Confident([e]) == if e.confidence >= Threshold then [e] else []
  {
    assert [e][1..] == [];
  }

  /**
   * The selection loop: `top` starts at the first filtered candidate and is
   * replaced only by a strictly higher confidence, so ties go to the earlier one.
   * `None` is the `github: []` answer.
   */
  method PickTop(all: seq<Entity>) returns (top: Option<Entity>)
    ensures top.None? <==> forall e :: e in all ==> e.confidence < Threshold
    ensures top.Some? ==> top.value in all && top.value.confidence >= Threshold
    ensures top.Some? ==> forall e :: e in all && e.confidence >= Threshold ==>
      e.confidence <= top.value.confidence
    ensures top.Some? ==>
      exists i :: 0 <= i < |Confident(all)| && Confident(all)[i] == top.value &&
        forall j :: 0 <= j < i ==> Confident(all)[j].confidence < top.value.confidence
  {
    var filtered := Confident(all);
    if |filtered| == 0 {
      return None;
    }
    var best := filtered[0];
    ghost var at := 0;
    var k := 0;
    while k < |filtered|
      invariant 0 <= k <= |filtered| && 0 <= at < |filtered| && at <= k
      invariant filtered[at] == best
      invariant forall j :: 0 <= j < k ==> filtered[j].confidence <= best.confidence
      invariant forall j :: 0 <= j < at ==> filtered[j].confidence < best.confidence
    {
      if filtered[k].confidence > best.confidence {
        best := filtered[k];
        at := k;
      }
      k := k + 1;
    }
    assert filtered[0] in all;
    return Some(best);
  }
}
