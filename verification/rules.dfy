/**
 * First-match-wins over an ordered rule table: every table of the detector (robots,
 * browsers, platforms, brands) is scanned in declaration order and the first entry
 * that applies decides the result. A table scan is modelled as the list of per-entry
 * verdicts, in table order, and the index of the first `true` one.
 */
module Rules {
  import opened Maybe

  /** Entry `k` is the first one whose verdict is `true`. */
  predicate IsFirst(hits: seq<bool>, k: int) {
    0 <= k < |hits| && hits[k] && forall j :: 0 <= j < k ==> !hits[j]
  }

  /** The index of the first `true` verdict, or `None` when no entry applies. */
  function FirstTrue(hits: seq<bool>): (r: Option<nat>)
    ensures r.None? <==> forall k :: 0 <= k < |hits| ==> !hits[k]
    ensures r.Some? ==> IsFirst(hits, r.value)
  {
    if |hits| == 0 then None
    else if hits[0] then Some(0)
    else match FirstTrue(hits[1..])
      case None => None
      case Some(k) => Some(k + 1)
  }

  /** At most one entry is the first applicable one. */
  lemma FirstIsUnique(hits: seq<bool>, k: int, k': int)
    requires IsFirst(hits, k) && IsFirst(hits, k')
    ensures k == k'
  {
  }
}
