/** Sizes of sets of positions. */
module Counting {

  lemma OneMoreCounted(before: set<nat>, after: set<nat>, n: nat, yes: bool)
    requires n !in before && forall i :: i in after <==> i in before || (yes && i == n)
    ensures |after| == |before| + if yes then 1 else 0
  {
    assert after == before + if yes then {n} else {};
  }
}
