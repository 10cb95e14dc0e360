/** The single-threaded strategy (busca_exaustiva.cpp): recursive backtracking
    that extends the current clique in place and records a strictly larger
    best clique in an accumulator passed by reference. */
module Exhaustive {
  import opened Graph
  import opened Cliques
  import opened Candidates

  /** The loop that builds novosCandidatos: the candidates after position i
      that are adjacent to every member of the current clique (which already
      holds the newly added vertex). */
  method KeepAdjacentToAll(g: Matrix, clique: seq<int>, candidates: seq<int>, i: int)
    returns (next: seq<int>)
    requires IsAdjMatrix(g) && InRange(clique, |g|) && InRange(candidates, |g|)
    requires 0 <= i < |candidates|
    ensures next == Keep(g, clique, candidates[i + 1..])
  {
    next := [];
    var j := i + 1;
    while j < |candidates|
      invariant i + 1 <= j <= |candidates|
      invariant next == Keep(g, clique, candidates[i + 1..j])
    {
      var w := candidates[j];
      var adjacent := AdjacentToAll(g, clique, w);
      KeepNext(g, clique, candidates, i + 1, j);
      if adjacent {
        next := next + [w];
      }
      j := j + 1;
    }
    assert candidates[i + 1..j] == candidates[i + 1..];
  }

  /** CliqueMaximaExaustiva. The by-reference current clique and best clique are
      passed in and handed back: current' is the current clique on return and
      best' the best clique on return.
      When (current, candidates) satisfies the candidate-set invariant, best'
      is either the incoming best or a larger ascending clique reachable from
      (current, candidates), and no ascending clique reachable from
      (current, candidates) is larger than best'. */
  method CliqueMaximaExaustiva(g: Matrix, current: seq<int>, candidates: seq<int>, best: seq<int>)
    returns (current': seq<int>, best': seq<int>)
    requires IsAdjMatrix(g) && InRange(current, |g|) && InRange(candidates, |g|)
    ensures current' == current
    ensures best' == best || |best'| > |best|
    ensures SearchState(g, current, candidates) ==>
              best' == best || (AscClique(g, best') && Extends(current, candidates, best'))
    ensures SearchState(g, current, candidates) ==>
              ReachableAtMost(g, current, candidates, |best'|)
    decreases |candidates|
  {
    current', best' := current, best;
    if |candidates| == 0 {
      if |current| > |best| {
        best' := current;
      }
      if SearchState(g, current, candidates) {
        LeafBound(g, current, |best'|);
        assert current[..|current|] == current;
      }
      return;
    }

    var i := 0;
    while i < |candidates|
      invariant 0 <= i <= |candidates|
      invariant current' == current
      invariant best' == best || |best'| > |best|
      invariant SearchState(g, current, candidates) ==>
                  best' == best || (AscClique(g, best') && Extends(current, candidates, best'))
      invariant SearchState(g, current, candidates) && i > 0 ==> |best'| > |current|
      invariant SearchState(g, current, candidates) ==>
                  ReachableViaAtMost(g, current, candidates, i, |best'|)
    {
      var v := candidates[i];
      var adjacent := AdjacentToAll(g, current', v);
      if adjacent {
        current' := current' + [v];
        if |current'| > |best'| {
          best' := current';
        }
        var next := KeepAdjacentToAll(g, current', candidates, i);
        ghost var extended := current';
        ghost var before := best';
        KeptAreCandidates(g, current', candidates, i, |g|);
        current', best' := CliqueMaximaExaustiva(g, current', next, best');
        current' := current'[..|current'| - 1];

        if SearchState(g, current, candidates) {
          ChildState(g, current, candidates, i);
          assert Extends(current, candidates, extended) by {
            assert extended[..|current|] == current;
            assert extended[|current|] == v;
          }
          if best' != before {
            ChildWithinParent(current, candidates, i, next, best');
          }
          ViaStep(g, current, candidates, i, |best'|);
        }
      }
      i := i + 1;
    }

    if SearchState(g, current, candidates) {
      ViaAll(g, current, candidates, |best'|);
    }
  }

  /** The candidate vector of main: every vertex, candidatos[i] == i. */
  method AllVertices(n: nat) returns (vs: seq<int>)
    ensures |vs| == n && forall k :: 0 <= k < n ==> vs[k] == k
  {
    var a := new int[n];
    for i := 0 to n
      invariant forall k :: 0 <= k < i ==> a[k] == k
    {
      a[i] := i;
    }
    vs := a[..];
  }

  /** main: search from the empty clique with every vertex as a candidate.
      The clique it reports is a maximum clique of the graph. */
  method MaximumClique(g: Matrix) returns (best: seq<int>)
    requires IsAdjMatrix(g)
    ensures IsMaximumClique(g, best)
  {
    var candidates := AllVertices(|g|);
    var current: seq<int> := [];
    best := [];
    current, best := CliqueMaximaExaustiva(g, current, candidates, best);

    assert SearchState(g, [], candidates);
    forall S | IsCliqueSet(g, S) ensures |S| <= |best| {
      SortedCliqueSet(g, S);
      var t := InOrder(S, |g|);
      forall k | 0 <= k < |t| ensures t[k] in candidates {
        assert candidates[t[k]] == t[k];
      }
      assert Extends([], candidates, t);
    }
  }
}
