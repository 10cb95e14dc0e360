/** The distributed strategy (mc_mpi.cpp) as a sequential program: each rank
    explores the seeds it receives round-robin, and rank 0 keeps, in rank
    order, the first strictly larger local result. */
module Mpi {
  import opened Graph
  import opened Cliques
  import opened StackSearch
  import opened Reducer

  /** Euclidean division is unique: x = q * size + r with 0 <= r < size
      leaves remainder r. */
  lemma ModUnique(x: int, q: int, r: int, size: int)
    requires size >= 1 && 0 <= r < size && x == q * size + r
    ensures x % size == r
  {
    var d := x / size - q;
    assert r - x % size == size * d;
  }

  /** No two numbers less than `size` apart share their remainder. */
  lemma NoSeedBetween(x: int, i: int, size: int)
    requires size >= 1 && i < x < i + size
    ensures x % size != i % size
  {
    var d := x / size - i / size;
    assert x - i == size * d + (x % size - i % size);
  }

  /** x is a seed of `rank` when there are `size` ranks. */
  ghost predicate SeedOf(size: int, rank: int, x: int)
    requires size >= 1
  {
    x % size == rank
  }

  /** The next seed of a rank is `size` further on, with none in between. */
  lemma NextSeed(i: int, size: int, rank: int)
    requires size >= 1 && SeedOf(size, rank, i)
    ensures SeedOf(size, rank, i + size)
    ensures forall x :: i < x < i + size ==> !SeedOf(size, rank, x)
  {
    forall x | i < x < i + size ensures !SeedOf(size, rank, x) {
      NoSeedBetween(x, i, size);
    }
    ModUnique(i + size, i / size + 1, rank, size);
  }

  /** The seeds of a rank: rank, rank + size, rank + 2 * size, ... below n.
      They are exactly the vertices whose remainder modulo size is the rank,
      in increasing order. */
  method LocalVertices(n: int, size: int, rank: int) returns (vs: seq<int>)
    requires size >= 1 && 0 <= rank < size
    ensures Ascending(vs)
    ensures forall x :: x in vs <==> 0 <= x < n && x % size == rank
  {
    vs := [];
    var i := rank;
    assert SeedOf(size, rank, i);
    while i < n
      invariant rank <= i && SeedOf(size, rank, i)
      invariant Ascending(vs) && forall k :: 0 <= k < |vs| ==> vs[k] < i
      invariant forall x :: x in vs <==> 0 <= x < i && x < n && SeedOf(size, rank, x)
      decreases n - i
    {
      NextSeed(i, size, rank);
      vs := vs + [i];
      i := i + size;
    }
  }

  /** Rank 0's reduction: in rank order, a local result replaces the global
      one only when strictly larger. The global result is no shorter than any
      local one; it is the first local result of maximal size, or empty when
      there are no ranks. */
  method ReduceRanks(locals: seq<seq<int>>) returns (global: seq<int>)
    ensures global == Fold([], locals)
    ensures forall r :: 0 <= r < |locals| ==> |locals[r]| <= |global|
    ensures |locals| == 0 ==> global == []
    ensures |locals| > 0 ==>
              exists r :: 0 <= r < |locals| && global == locals[r] &&
                          forall q :: 0 <= q < r ==> |locals[q]| < |global|
  {
    global := [];
    for i := 0 to |locals|
      invariant global == Fold([], locals[..i])
    {
      assert locals[..i + 1][..i] == locals[..i];
      if |locals[i]| > |global| {
        global := locals[i];
      }
    }
    assert locals[..|locals|] == locals;
    FoldUpperBound([], locals);
    FoldPicksFirstLongest([], locals);
    if |locals| > 0 && global == [] {
      assert locals[0] == [];
    }
  }

  /** All ranks of a run with `size` processes, one after another, followed
      by rank 0's reduction. The reported clique is a maximum clique. */
  method Run(g: Matrix, size: int) returns (global: seq<int>)
    requires IsAdjMatrix(g) && size >= 1
    ensures IsMaximumClique(g, global)
  {
    var locals: seq<seq<int>> := [];
    ghost var seedsOf: seq<seq<int>> := [];
    for rank := 0 to size
      invariant |locals| == rank && |seedsOf| == rank
      invariant forall r, x :: 0 <= r < rank ==> (x in seedsOf[r] <==> 0 <= x < |g| && x % size == r)
      invariant forall r :: 0 <= r < rank ==> locals[r] == [] || AscClique(g, locals[r])
      invariant forall r :: 0 <= r < rank ==> BestFrom(g, seedsOf[r], locals[r])
    {
      var seeds := LocalVertices(|g|, size, rank);
      assert InRange(seeds, |g|) by {
        forall k | 0 <= k < |seeds| ensures 0 <= seeds[k] < |g| {
          assert seeds[k] in seeds;
        }
      }
      var local := LocalSearch(g, seeds);
      locals := locals + [local];
      seedsOf := seedsOf + [seeds];
    }
    global := ReduceRanks(locals);

    assert IsClique(g, global) by {
      if global != [] {
        var r :| 0 <= r < |locals| && global == locals[r];
      }
    }
    forall S | IsCliqueSet(g, S) ensures |S| <= |global| {
      if S != {} {
        SortedCliqueSet(g, S);
        var t := InOrder(S, |g|);
        var r := t[0] % size;
        assert t[0] in seedsOf[r];
        assert BestFrom(g, seedsOf[r], locals[r]);
      }
    }
  }
}
