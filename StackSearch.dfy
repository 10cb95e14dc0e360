/** The search both parallel strategies run for each seed vertex
    (mc_mpi.cpp and mc_openmp.cpp hold the same code): the recursion is
    replaced by an explicit stack of (clique, candidates) frames, and one
    local best clique is shared by all the seeds of a worker. */
module StackSearch {
  import opened Graph
  import opened Cliques
  import opened Candidates

  /** One pending subproblem: the pair (clique, candidates) pushed on `pilha`. */
  datatype Frame = Frame(clique: seq<int>, candidates: seq<int>)

  function Pow2(k: nat): nat {
    if k == 0 then 1 else 2 * Pow2(k - 1)
  }

  lemma {:induction false} Pow2Monotone(a: nat, b: nat)
    requires a <= b
    ensures Pow2(a) <= Pow2(b)
  {
    if a < b {
      Pow2Monotone(a, b - 1);
    }
  }

  /** The termination measure of the stack loop: the sum of 2^|candidates|
      over the frames on the stack. */
  ghost function Weight(stack: seq<Frame>): nat {
    if stack == [] then 0
    else Weight(stack[..|stack| - 1]) + Pow2(|stack[|stack| - 1].candidates|)
  }

  lemma WeightPush(stack: seq<Frame>, f: Frame)
    ensures Weight(stack + [f]) == Weight(stack) + Pow2(|f.candidates|)
  {
    assert (stack + [f])[..|stack|] == stack;
  }

  /** An ascending clique whose smallest vertex is the seed. */
  ghost predicate SeedClique(g: Matrix, seed: int, t: seq<int>) {
    AscClique(g, t) && |t| >= 1 && t[0] == seed
  }

  /** The invariant of every frame of the search from `seed`: its clique starts
      with the seed, and (clique, candidates) satisfies the candidate-set
      invariant (ascending clique, later ascending candidates each adjacent to
      the whole clique). */
  ghost predicate FrameOk(g: Matrix, seed: int, f: Frame) {
    |f.clique| >= 1 && f.clique[0] == seed && SearchState(g, f.clique, f.candidates)
  }

  ghost predicate StackOk(g: Matrix, seed: int, stack: seq<Frame>) {
    forall k :: 0 <= k < |stack| ==> FrameOk(g, seed, stack[k])
  }

  /** Some frame on the stack can still reach t. */
  ghost predicate Pending(stack: seq<Frame>, t: seq<int>) {
    exists k :: 0 <= k < |stack| && Extends(stack[k].clique, stack[k].candidates, t)
  }

  /** Every clique whose smallest vertex is the seed is either no longer than
      `size` or still reachable from a frame on the stack. */
  ghost predicate Accounted(g: Matrix, seed: int, stack: seq<Frame>, size: int) {
    forall t :: SeedClique(g, seed, t) ==> |t| <= size || Pending(stack, t)
  }

  /** The frame pushed for the candidate at position k of f: the clique grown
      by that candidate, and the later candidates adjacent to it. */
  ghost function Child(g: Matrix, f: Frame, k: int): Frame
    requires 0 <= k < |f.candidates|
  {
    var v := f.candidates[k];
    Frame(f.clique + [v], Keep(g, [v], f.candidates[k + 1..]))
  }

  /** All frames pushed while expanding f, in push order. */
  ghost function Children(g: Matrix, f: Frame): seq<Frame> {
    seq(|f.candidates|, k requires 0 <= k < |f.candidates| => Child(g, f, k))
  }

  // ---------------------------------------------------------------------
  // The root frame of a seed

  /** The loop that gathers the root candidates of seed i: every j with
      grafo[i][j] == 1 and j > i, in increasing order. */
  method RootCandidates(g: Matrix, i: int) returns (candidates: seq<int>)
    requires IsAdjMatrix(g) && 0 <= i < |g|
    ensures Ascending(candidates)
    ensures forall j :: j in candidates <==> i < j < |g| && Adj(g, i, j)
  {
    candidates := [];
    var j := 0;
    while j < |g|
      invariant 0 <= j <= |g|
      invariant Ascending(candidates)
      invariant forall k :: 0 <= k < |candidates| ==> candidates[k] < j
      invariant forall x :: x in candidates <==> i < x < j && Adj(g, i, x)
    {
      if g[i][j] == 1 && j > i {
        candidates := candidates + [j];
      }
      j := j + 1;
    }
  }

  /** The root frame ([seed], root candidates) is a valid frame, and every
      clique whose smallest vertex is the seed is reachable from it. */
  lemma RootFrame(g: Matrix, seed: int, candidates: seq<int>)
    requires IsAdjMatrix(g) && 0 <= seed < |g|
    requires Ascending(candidates)
    requires forall j :: j in candidates <==> seed < j < |g| && Adj(g, seed, j)
    ensures FrameOk(g, seed, Frame([seed], candidates))
    ensures forall t :: SeedClique(g, seed, t) ==> Extends([seed], candidates, t)
  {
    forall k | 0 <= k < |candidates|
      ensures 0 <= candidates[k] < |g| && seed < candidates[k] && AdjToAll(g, [seed], candidates[k])
    {
      assert candidates[k] in candidates;
    }
    forall t | SeedClique(g, seed, t) ensures Extends([seed], candidates, t) {
      assert t[..1] == [seed];
      forall k | 1 <= k < |t| ensures t[k] in candidates {
        assert t[0] < t[k] && Adj(g, t[0], t[k]);
      }
    }
  }

  // ---------------------------------------------------------------------
  // Expanding a popped frame

  /** The loop that builds novosCandidatos in the stack search: the
      candidates after position idx with grafo[v][w] == 1. */
  method KeepAdjacentTo(g: Matrix, v: int, candidates: seq<int>, idx: int)
    returns (next: seq<int>)
    requires IsSquare(g) && 0 <= v < |g| && InRange(candidates, |g|)
    requires 0 <= idx < |candidates|
    ensures next == Keep(g, [v], candidates[idx + 1..])
  {
    next := [];
    var j := idx + 1;
    while j < |candidates|
      invariant idx + 1 <= j <= |candidates|
      invariant next == Keep(g, [v], candidates[idx + 1..j])
    {
      var w := candidates[j];
      KeepNext(g, [v], candidates, idx + 1, j);
      AdjToSingle(g, v, w);
      if g[v][w] == 1 {
        next := next + [w];
      }
      j := j + 1;
    }
    assert candidates[idx + 1..j] == candidates[idx + 1..];
  }

  /** The for loop over the candidates of a popped frame that has candidates.
      The adjacency check always passes, so exactly one child is pushed per
      candidate (their weight is bounded by ChildrenWeight); all children have
      one more vertex than the frame, so only the first can replace the best
      clique, and only when that is strictly larger. */
  method Expand(g: Matrix, frame: Frame, stack: seq<Frame>, best: seq<int>)
    returns (stack': seq<Frame>, best': seq<int>)
    requires IsAdjMatrix(g) && InRange(frame.clique, |g|) && InRange(frame.candidates, |g|)
    requires forall k :: 0 <= k < |frame.candidates| ==> AdjToAll(g, frame.clique, frame.candidates[k])
    requires |frame.candidates| > 0
    ensures stack' == stack + Children(g, frame)
    ensures best' == if |frame.clique| + 1 > |best|
                     then frame.clique + [frame.candidates[0]] else best
  {
    var clique := frame.clique;
    var candidates := frame.candidates;
    var n := |candidates|;
    stack', best' := stack, best;
    var idx := 0;
    while idx < n
      invariant 0 <= idx <= n
      invariant stack' == stack + Children(g, frame)[..idx]
      invariant best' == if idx == 0 || |clique| + 1 <= |best| then best
                         else clique + [candidates[0]]
    {
      var v := candidates[idx];
      assert AdjToAll(g, clique, v);
      var adjacent := AdjacentToAll(g, clique, v);
      if adjacent {
        var newClique := clique + [v];
        var next := KeepAdjacentTo(g, v, candidates, idx);
        ChildrenPrefix(g, frame, idx);
        assert Frame(newClique, next) == Child(g, frame, idx);
        stack' := stack' + [Frame(newClique, next)];
        if |newClique| > |best'| {
          best' := newClique;
        }
      }
      idx := idx + 1;
    }
    assert Children(g, frame)[..n] == Children(g, frame);
  }

  /** What the search reads off a valid frame: its clique and candidates are
      vertices, and every candidate passes the adjacency check. */
  lemma FrameInRange(g: Matrix, seed: int, f: Frame)
    requires FrameOk(g, seed, f)
    ensures InRange(f.clique, |g|) && InRange(f.candidates, |g|)
    ensures forall k :: 0 <= k < |f.candidates| ==> AdjToAll(g, f.clique, f.candidates[k])
  {
  }

  /** The children of the first j candidates of f weigh at most
      2^|candidates| - 2^(|candidates| - j) together. */
  lemma {:induction false} ChildrenPrefixWeight(g: Matrix, f: Frame, stack: seq<Frame>, j: int)
    requires 0 <= j <= |f.candidates|
    ensures Weight(stack + Children(g, f)[..j]) + Pow2(|f.candidates| - j)
            <= Weight(stack) + Pow2(|f.candidates|)
  {
    if j > 0 {
      ChildrenPrefixWeight(g, f, stack, j - 1);
      ChildrenPrefix(g, f, j - 1);
      ChildShorter(g, f, j - 1);
      var pushed := stack + Children(g, f)[..j - 1];
      var m := |f.candidates| - j;
      assert stack + Children(g, f)[..j] == pushed + [Child(g, f, j - 1)];
      WeightStep(pushed, Child(g, f, j - 1), m);
      assert m + 1 == |f.candidates| - (j - 1);
    } else {
      assert stack + Children(g, f)[..j] == stack;
    }
  }

  /** Expanding a frame with k candidates replaces weight 2^k by strictly less. */
  lemma ChildrenWeight(g: Matrix, f: Frame, stack: seq<Frame>)
    requires |f.candidates| > 0
    ensures Weight(stack + Children(g, f)) < Weight(stack) + Pow2(|f.candidates|)
  {
    ChildrenPrefixWeight(g, f, stack, |f.candidates|);
    assert Children(g, f)[..|f.candidates|] == Children(g, f);
  }

  /** The child of candidate idx has at most the candidates after idx. */
  lemma ChildShorter(g: Matrix, f: Frame, idx: int)
    requires 0 <= idx < |f.candidates|
    ensures |Child(g, f, idx).candidates| <= |f.candidates| - idx - 1
  {
    assert |f.candidates[idx + 1..]| == |f.candidates| - idx - 1;
  }

  /** Pushing a frame with at most m candidates adds at most 2^m to the weight. */
  lemma WeightStep(pushed: seq<Frame>, c: Frame, m: nat)
    requires |c.candidates| <= m
    ensures Weight(pushed + [c]) + Pow2(m) <= Weight(pushed) + Pow2(m + 1)
  {
    WeightPush(pushed, c);
    Pow2Monotone(|c.candidates|, m);
  }

  lemma ChildrenPrefix(g: Matrix, f: Frame, idx: int)
    requires 0 <= idx < |f.candidates|
    ensures Children(g, f)[..idx + 1] == Children(g, f)[..idx] + [Child(g, f, idx)]
  {
  }

  /** Every child frame is a valid frame. */
  lemma ChildrenOk(g: Matrix, seed: int, f: Frame)
    requires FrameOk(g, seed, f)
    ensures StackOk(g, seed, Children(g, f))
  {
    forall k | 0 <= k < |f.candidates| ensures FrameOk(g, seed, Child(g, f, k)) {
      var v := f.candidates[k];
      var rest := f.candidates[k + 1..];
      forall m | 0 <= m < |rest| ensures AdjToAll(g, f.clique, rest[m]) {
        assert rest[m] == f.candidates[k + 1 + m];
      }
      KeepNewestSuffices(g, f.clique, v, rest);
      ChildState(g, f.clique, f.candidates, k);
    }
  }

  /** Every clique starting at the seed and reachable from f, other than f's
      own clique, is reachable from one of f's children. */
  lemma ChildrenCover(g: Matrix, seed: int, f: Frame, t: seq<int>)
    requires FrameOk(g, seed, f)
    requires SeedClique(g, seed, t) && Extends(f.clique, f.candidates, t) && |t| > |f.clique|
    ensures Pending(Children(g, f), t)
  {
    ReachedFromCandidates(f.clique, f.candidates, t, |f.clique|);
    var k :| 0 <= k < |f.candidates| && f.candidates[k] == t[|f.clique|];
    var rest := f.candidates[k + 1..];
    forall m | 0 <= m < |rest| ensures AdjToAll(g, f.clique, rest[m]) {
      assert rest[m] == f.candidates[k + 1 + m];
    }
    KeepNewestSuffices(g, f.clique, f.candidates[k], rest);
    ChildCovers(g, f.clique, f.candidates, k, t);
    assert Children(g, f)[k] == Child(g, f, k);
  }

  /** Popping the top frame and replacing it by frames that account for
      everything it could reach keeps every seed clique accounted for. */
  lemma AccountedAfterPop(g: Matrix, seed: int, stack: seq<Frame>, size: int,
                          stack': seq<Frame>, size': int)
    requires |stack| > 0 && Accounted(g, seed, stack, size) && size <= size'
    requires |stack'| >= |stack| - 1 && stack'[..|stack| - 1] == stack[..|stack| - 1]
    requires forall t :: (SeedClique(g, seed, t) &&
                          Extends(stack[|stack| - 1].clique, stack[|stack| - 1].candidates, t)) ==>
               |t| <= size' || Pending(stack', t)
    ensures Accounted(g, seed, stack', size')
  {
    forall t | SeedClique(g, seed, t) && |t| > size' ensures Pending(stack', t) {
      var k :| 0 <= k < |stack| && Extends(stack[k].clique, stack[k].candidates, t);
      if k < |stack| - 1 {
        assert stack'[k] == stack'[..|stack| - 1][k] == stack[k];
      }
    }
  }

  lemma PendingAppend(stack: seq<Frame>, more: seq<Frame>, t: seq<int>)
    requires Pending(more, t)
    ensures Pending(stack + more, t)
  {
    var k :| 0 <= k < |more| && Extends(more[k].clique, more[k].candidates, t);
    assert (stack + more)[|stack| + k] == more[k];
  }

  // ---------------------------------------------------------------------
  // The search from one seed, and the per-worker loop over seeds

  /** Popping a leaf frame (no candidates) once the best clique is at least
      as long as its clique keeps the stack invariants. */
  lemma LeafPopped(g: Matrix, seed: int, stack: seq<Frame>, size: int, size': int)
    requires StackOk(g, seed, stack) && |stack| > 0 && stack[|stack| - 1].candidates == []
    requires Accounted(g, seed, stack, size) && size <= size'
    requires |stack[|stack| - 1].clique| <= size'
    ensures StackOk(g, seed, stack[..|stack| - 1])
    ensures Accounted(g, seed, stack[..|stack| - 1], size')
  {
    var top := stack[|stack| - 1];
    LeafBound(g, top.clique, size');
    AccountedAfterPop(g, seed, stack, size, stack[..|stack| - 1], size');
  }

  /** Appending valid frames to a valid stack gives a valid stack. */
  lemma StackOkAppend(g: Matrix, seed: int, stack: seq<Frame>, more: seq<Frame>)
    requires StackOk(g, seed, stack) && StackOk(g, seed, more)
    ensures StackOk(g, seed, stack + more)
  {
    forall k | 0 <= k < |stack + more| ensures FrameOk(g, seed, (stack + more)[k]) {
      if k < |stack| {
        assert (stack + more)[k] == stack[k];
      } else {
        assert (stack + more)[k] == more[k - |stack|];
      }
    }
  }

  /** What a frame with candidates can reach is accounted for by its children
      on top of any stack, once the best clique is longer than its clique. */
  lemma ChildrenAccount(g: Matrix, seed: int, below: seq<Frame>, f: Frame, size: int)
    requires FrameOk(g, seed, f) && |f.clique| < size
    ensures forall t :: (SeedClique(g, seed, t) && Extends(f.clique, f.candidates, t)) ==>
              |t| <= size || Pending(below + Children(g, f), t)
  {
    forall t | SeedClique(g, seed, t) && Extends(f.clique, f.candidates, t) && |t| > size
      ensures Pending(below + Children(g, f), t)
    {
      ChildrenCover(g, seed, f, t);
      PendingAppend(below, Children(g, f), t);
    }
  }

  /** Replacing a popped frame that has candidates by its children, once the
      best clique is longer than the frame's clique, keeps the stack
      invariants; the first child's clique starts at the seed. */
  lemma ExpandedPopped(g: Matrix, seed: int, stack: seq<Frame>, size: int,
                       stack': seq<Frame>, size': int)
    requires StackOk(g, seed, stack) && |stack| > 0 && |stack[|stack| - 1].candidates| > 0
    requires Accounted(g, seed, stack, size) && size <= size'
    requires |stack[|stack| - 1].clique| < size'
    requires stack' == stack[..|stack| - 1] + Children(g, stack[|stack| - 1])
    ensures StackOk(g, seed, stack')
    ensures Accounted(g, seed, stack', size')
    ensures SeedClique(g, seed, stack[|stack| - 1].clique + [stack[|stack| - 1].candidates[0]])
  {
    var top := stack[|stack| - 1];
    var popped := stack[..|stack| - 1];
    assert FrameOk(g, seed, top);
    assert StackOk(g, seed, popped) by {
      forall k | 0 <= k < |popped| ensures FrameOk(g, seed, popped[k]) {
        assert popped[k] == stack[k];
      }
    }
    ChildrenOk(g, seed, top);
    assert FrameOk(g, seed, Children(g, top)[0]);
    assert Children(g, top)[0] == Child(g, top, 0);
    StackOkAppend(g, seed, popped, Children(g, top));
    ChildrenAccount(g, seed, popped, top, size');
    assert stack'[..|popped|] == popped;
    AccountedAfterPop(g, seed, stack, size, stack', size');
  }

  /** The body of the per-seed loop: push the root frame ([seed], candidates),
      then pop frames until the stack is empty. A frame without candidates is
      a leaf that replaces the best clique when strictly larger; any other
      frame is expanded. Afterwards the best clique is either unchanged or a
      larger clique whose smallest vertex is the seed, and no clique whose
      smallest vertex is the seed is larger than it. */
  method SeedSearch(g: Matrix, seed: int, best: seq<int>) returns (best': seq<int>)
    requires IsAdjMatrix(g) && 0 <= seed < |g|
    ensures best' == best || (|best'| > |best| && SeedClique(g, seed, best'))
    ensures forall t :: SeedClique(g, seed, t) ==> |t| <= |best'|
  {
    best' := best;
    var clique := [seed];
    var candidates := RootCandidates(g, seed);
    RootFrame(g, seed, candidates);
    var stack := [Frame(clique, candidates)];
    assert Accounted(g, seed, stack, |best'|) by {
      forall t | SeedClique(g, seed, t) ensures Pending(stack, t) {
        assert Extends(stack[0].clique, stack[0].candidates, t);
      }
    }

    while stack != []
      invariant StackOk(g, seed, stack)
      invariant best' == best || (|best'| > |best| && SeedClique(g, seed, best'))
      invariant Accounted(g, seed, stack, |best'|)
      decreases Weight(stack)
    {
      var state := stack[|stack| - 1];
      ghost var before, sizeBefore := stack, |best'|;
      assert FrameOk(g, seed, state);
      FrameInRange(g, seed, state);
      stack := stack[..|stack| - 1];
      if |state.candidates| == 0 {
        if |state.clique| > |best'| {
          best' := state.clique;
        }
        LeafPopped(g, seed, before, sizeBefore, |best'|);
      } else {
        ChildrenWeight(g, state, stack);
        stack, best' := Expand(g, state, stack, best');
        ExpandedPopped(g, seed, before, sizeBefore, stack, |best'|);
      }
    }
  }

  /** No ascending clique whose smallest vertex is one of the seeds is longer than best. */
  ghost predicate BestFrom(g: Matrix, seeds: seq<int>, best: seq<int>) {
    forall t :: AscClique(g, t) && |t| > 0 && t[0] in seeds ==> |t| <= |best|
  }

  /** A bound that holds for one best clique holds for any longer one. */
  lemma BestFromGrows(g: Matrix, seeds: seq<int>, best: seq<int>, best': seq<int>)
    requires BestFrom(g, seeds, best) && |best| <= |best'|
    ensures BestFrom(g, seeds, best')
  {
  }

  /** The loop of a worker over its seed vertices, with one local best clique
      (initially empty) shared by all of them. Afterwards the local best is
      empty exactly when there are no seeds, is otherwise an ascending clique
      whose smallest vertex is a seed, and no clique whose smallest vertex is
      a seed is larger. */
  method LocalSearch(g: Matrix, seeds: seq<int>) returns (best: seq<int>)
    requires IsAdjMatrix(g) && InRange(seeds, |g|)
    ensures best == [] <==> seeds == []
    ensures best == [] || (AscClique(g, best) && best[0] in seeds)
    ensures BestFrom(g, seeds, best)
  {
    best := [];
    var k := 0;
    while k < |seeds|
      invariant 0 <= k <= |seeds|
      invariant best == [] <==> k == 0
      invariant best == [] || (AscClique(g, best) && best[0] in seeds[..k])
      invariant BestFrom(g, seeds[..k], best)
    {
      var seed := seeds[k];
      ghost var before := best;
      best := SeedSearch(g, seed, best);
      SeedDone(g, seeds, k, before, best);
      k := k + 1;
    }
    assert seeds[..k] == seeds;
  }

  /** After the search from seeds[k], the local best is a non-empty ascending
      clique starting at one of the first k + 1 seeds, and no clique starting
      at one of them is longer. */
  lemma SeedDone(g: Matrix, seeds: seq<int>, k: int, best: seq<int>, best': seq<int>)
    requires 0 <= k < |seeds| && 0 <= seeds[k] < |g|
    requires best == [] || (AscClique(g, best) && best[0] in seeds[..k])
    requires BestFrom(g, seeds[..k], best)
    requires best' == best || (|best'| > |best| && SeedClique(g, seeds[k], best'))
    requires forall t :: SeedClique(g, seeds[k], t) ==> |t| <= |best'|
    ensures best' != [] && AscClique(g, best') && best'[0] in seeds[..k + 1]
    ensures BestFrom(g, seeds[..k + 1], best')
  {
    assert SeedClique(g, seeds[k], [seeds[k]]);
    assert seeds[..k + 1] == seeds[..k] + [seeds[k]];
    forall t | AscClique(g, t) && |t| > 0 && t[0] in seeds[..k + 1] ensures |t| <= |best'| {
      if t[0] != seeds[k] {
        assert t[0] in seeds[..k];
      }
    }
  }
}
