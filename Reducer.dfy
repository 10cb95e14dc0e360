/** Combining the best cliques of several workers: a worker's clique replaces
    the global one only when it is strictly larger. */
module Reducer {

  /** The keep-if-strictly-larger step. */
  function Merge(global: seq<int>, local: seq<int>): (r: seq<int>)
    ensures r == global || r == local
    ensures |r| >= |global| && |r| >= |local|
    ensures |local| <= |global| ==> r == global
  {
    if |local| > |global| then local else global
  }

  /** Merging the local results one after another, in list order. */
  function Fold(acc: seq<int>, locals: seq<seq<int>>): seq<int> {
    if locals == [] then acc
    else Merge(Fold(acc, locals[..|locals| - 1]), locals[|locals| - 1])
  }

  /** The fold is at least as long as the start value and as every local result. */
  lemma {:induction false} FoldUpperBound(acc: seq<int>, locals: seq<seq<int>>)
    ensures |acc| <= |Fold(acc, locals)|
    ensures forall k :: 0 <= k < |locals| ==> |locals[k]| <= |Fold(acc, locals)|
  {
    if locals != [] {
      var init := locals[..|locals| - 1];
      FoldUpperBound(acc, init);
      forall k | 0 <= k < |locals| - 1 ensures |locals[k]| <= |Fold(acc, locals)| {
        assert locals[k] == init[k];
      }
    }
  }

  /** The fold is the start value when no local result is longer; otherwise it
      is the first local result, in list order, that is longer than the start
      value and than every earlier local result. */
  lemma {:induction false} FoldPicksFirstLongest(acc: seq<int>, locals: seq<seq<int>>)
    ensures (Fold(acc, locals) == acc && forall k :: 0 <= k < |locals| ==> |locals[k]| <= |acc|) ||
            exists r :: 0 <= r < |locals| && Fold(acc, locals) == locals[r] && |acc| < |locals[r]| &&
                        forall q :: 0 <= q < r ==> |locals[q]| < |locals[r]|
  {
    if locals != [] {
      var n := |locals|;
      var init := locals[..n - 1];
      var last := locals[n - 1];
      FoldPicksFirstLongest(acc, init);
      FoldUpperBound(acc, init);
      var before := Fold(acc, init);
      if |last| <= |before| {
        if before == acc && forall k :: 0 <= k < |init| ==> |init[k]| <= |acc| {
          forall k | 0 <= k < n ensures |locals[k]| <= |acc| {
            if k < n - 1 {
              assert locals[k] == init[k];
            }
          }
        } else {
          var r :| 0 <= r < |init| && before == init[r] && |acc| < |init[r]| &&
                   forall q :: 0 <= q < r ==> |init[q]| < |init[r]|;
          assert locals[r] == init[r];
          assert forall q :: 0 <= q < r ==> locals[q] == init[q];
        }
      } else {
        forall q | 0 <= q < n - 1 ensures |locals[q]| < |last| {
          assert locals[q] == init[q];
        }
        assert Fold(acc, locals) == locals[n - 1];
      }
    }
  }
}
