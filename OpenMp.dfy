/** The shared-memory strategy (mc_openmp.cpp) as a sequential program: the
    seeds 0 .. n-1 are handed out to threads in some schedule, each thread runs
    the stack search over its seeds with a thread-local best clique, and the
    critical section merges each thread's result into the shared one. */
module OpenMp {
  import opened Graph
  import opened Cliques
  import opened StackSearch
  import opened Reducer

  /** Vertex x is handed to some thread. */
  ghost predicate Scheduled(schedule: seq<seq<int>>, x: int) {
    exists t :: 0 <= t < |schedule| && x in schedule[t]
  }

  /** Every vertex is handed to some thread. */
  ghost predicate Covers(n: int, schedule: seq<seq<int>>) {
    forall x :: 0 <= x < n ==> Scheduled(schedule, x)
  }

  /** The parallel region, one thread after another, in any order and for any
      hand-out of the seeds that covers every vertex: each thread's local best
      is merged into the shared clique, which ends as a maximum clique. */
  method Run(g: Matrix, schedule: seq<seq<int>>) returns (best: seq<int>)
    requires IsAdjMatrix(g)
    requires forall t :: 0 <= t < |schedule| ==> InRange(schedule[t], |g|)
    requires Covers(|g|, schedule)
    ensures IsMaximumClique(g, best)
  {
    best := [];
    for t := 0 to |schedule|
      invariant best == [] || AscClique(g, best)
      invariant forall p :: 0 <= p < t ==> BestFrom(g, schedule[p], best)
    {
      var local := LocalSearch(g, schedule[t]);
      ghost var before := best;
      best := Merge(best, local);
      forall p | 0 <= p <= t ensures BestFrom(g, schedule[p], best) {
        if p < t {
          BestFromGrows(g, schedule[p], before, best);
        } else {
          BestFromGrows(g, schedule[p], local, best);
        }
      }
    }

    forall S | IsCliqueSet(g, S) ensures |S| <= |best| {
      if S != {} {
        SortedCliqueSet(g, S);
        var s := InOrder(S, |g|);
        assert Scheduled(schedule, s[0]);
        var t :| 0 <= t < |schedule| && s[0] in schedule[t];
        assert BestFrom(g, schedule[t], best);
      }
    }
  }
}
