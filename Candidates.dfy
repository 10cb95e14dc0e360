/** Candidate sets: the vertices that may still extend the clique under
    construction, the adjacency check every search runs before extending, and
    the invariant that links a partial clique to its candidates. */
module Candidates {
  import opened Graph
  import opened Cliques

  /** w is adjacent to every member of c. */
  ghost predicate AdjToAll(g: Matrix, c: seq<int>, w: int) {
    forall k :: 0 <= k < |c| ==> Adj(g, c[k], w)
  }

  /** The entries of s adjacent to every member of c, in their order in s. */
  ghost function Keep(g: Matrix, c: seq<int>, s: seq<int>): (r: seq<int>)
    ensures |r| <= |s|
  {
    if s == [] then []
    else
      var last := s[|s| - 1];
      Keep(g, c, s[..|s| - 1]) + (if AdjToAll(g, c, last) then [last] else [])
  }

  /** Keep holds exactly the entries of s adjacent to every member of c. */
  lemma {:induction false} KeepMembers(g: Matrix, c: seq<int>, s: seq<int>)
    ensures forall w :: w in Keep(g, c, s) <==> w in s && AdjToAll(g, c, w)
  {
    if s != [] {
      KeepMembers(g, c, s[..|s| - 1]);
      assert s == s[..|s| - 1] + [s[|s| - 1]];
    }
  }

  /** Filtering one more entry of s: Keep over s[lo..j+1] is Keep over
      s[lo..j], followed by s[j] when it is adjacent to all of c. */
  lemma KeepNext(g: Matrix, c: seq<int>, s: seq<int>, lo: int, j: int)
    requires 0 <= lo <= j < |s|
    ensures Keep(g, c, s[lo..j + 1]) ==
            Keep(g, c, s[lo..j]) + (if AdjToAll(g, c, s[j]) then [s[j]] else [])
  {
    assert s[lo..j + 1][..j - lo] == s[lo..j];
  }

  /** Adjacent to every member of [v] means adjacent to v. */
  lemma AdjToSingle(g: Matrix, v: int, w: int)
    ensures AdjToAll(g, [v], w) <==> Adj(g, v, w)
  {
    assert [v][0] == v;
  }

  /** Filtering keeps the order: a filtered ascending list is ascending. */
  lemma {:induction false} KeepAscending(g: Matrix, c: seq<int>, s: seq<int>)
    requires Ascending(s)
    ensures Ascending(Keep(g, c, s))
  {
    if s != [] {
      var init := s[..|s| - 1];
      KeepAscending(g, c, init);
      KeepMembers(g, c, init);
      var r := Keep(g, c, init);
      forall k | 0 <= k < |r| ensures r[k] < s[|s| - 1] {
        assert r[k] in r;
        var p :| 0 <= p < |init| && init[p] == r[k];
      }
    }
  }

  /** When every entry of s is already adjacent to all of c, checking the
      newest member v alone keeps exactly the entries adjacent to all of c + [v]. */
  lemma {:induction false} KeepNewestSuffices(g: Matrix, c: seq<int>, v: int, s: seq<int>)
    requires forall k :: 0 <= k < |s| ==> AdjToAll(g, c, s[k])
    ensures Keep(g, [v], s) == Keep(g, c + [v], s)
  {
    if s != [] {
      var last := s[|s| - 1];
      KeepNewestSuffices(g, c, v, s[..|s| - 1]);
      assert AdjToAll(g, c, last);
      assert AdjToAll(g, [v], last) <==> AdjToAll(g, c + [v], last) by {
        if AdjToAll(g, [v], last) {
          forall k | 0 <= k < |c| + 1 ensures Adj(g, (c + [v])[k], last) {
            if k == |c| {
              assert Adj(g, [v][0], last);
            }
          }
        }
        if AdjToAll(g, c + [v], last) {
          assert Adj(g, (c + [v])[|c|], last);
        }
      }
    }
  }

  /** The check both search strategies run before extending a clique with v:
      scan the clique and give up at the first member u with grafo[u][v] == 0. */
  method AdjacentToAll(g: Matrix, clique: seq<int>, v: int) returns (b: bool)
    requires IsAdjMatrix(g) && InRange(clique, |g|) && 0 <= v < |g|
    ensures b <==> AdjToAll(g, clique, v)
  {
    b := true;
    var k := 0;
    while k < |clique|
      invariant 0 <= k <= |clique|
      invariant forall m :: 0 <= m < k ==> Adj(g, clique[m], v)
    {
      if g[clique[k]][v] == 0 {
        b := false;
        break;
      }
      EntryIsBit(g, clique[k], v);
      k := k + 1;
    }
  }

  /** t is c followed only by vertices taken from cands: a clique that the
      subproblem (c, cands) can still reach. */
  ghost predicate Extends(c: seq<int>, cands: seq<int>, t: seq<int>) {
    |c| <= |t| && t[..|c|] == c &&
    forall k :: |c| <= k < |t| ==> t[k] in cands
  }

  /** The invariant of a search subproblem (c, cands): c is an ascending clique,
      cands are ascending vertices after the last member of c, and each of them
      is adjacent to every member of c. */
  ghost predicate SearchState(g: Matrix, c: seq<int>, cands: seq<int>) {
    AscClique(g, c) && Ascending(cands) &&
    forall k :: 0 <= k < |cands| ==>
      0 <= cands[k] < |g| && (|c| > 0 ==> c[|c| - 1] < cands[k]) && AdjToAll(g, c, cands[k])
  }

  /** Extending c with its candidate at position i and keeping the later
      candidates adjacent to the whole new clique gives a subproblem that again
      satisfies the invariant, with fewer candidates. */
  lemma ChildState(g: Matrix, c: seq<int>, cands: seq<int>, i: int)
    requires SearchState(g, c, cands) && 0 <= i < |cands|
    ensures SearchState(g, c + [cands[i]], Keep(g, c + [cands[i]], cands[i + 1..]))
    ensures |Keep(g, c + [cands[i]], cands[i + 1..])| < |cands|
  {
    var v := cands[i];
    var c' := c + [v];
    var rest := cands[i + 1..];
    forall a, b | 0 <= a < b < |c'| ensures c'[a] != c'[b] && Adj(g, c'[a], c'[b]) && c'[a] < c'[b] {
      if b == |c| {
        assert c[a] <= c[|c| - 1];
        assert Adj(g, c[a], v);
      }
    }
    assert AscClique(g, c');
    KeepAscending(g, c', rest);
    KeepMembers(g, c', rest);
    var r := Keep(g, c', rest);
    forall k | 0 <= k < |r|
      ensures 0 <= r[k] < |g| && c'[|c'| - 1] < r[k] && AdjToAll(g, c', r[k])
    {
      assert r[k] in rest;
      var p :| i + 1 <= p < |cands| && cands[p] == r[k];
    }
  }

  /** Every ascending clique reachable from (c, cands) whose next vertex is the
      candidate at position i is reachable from the child subproblem built
      from that candidate. */
  lemma ChildCovers(g: Matrix, c: seq<int>, cands: seq<int>, i: int, t: seq<int>)
    requires SearchState(g, c, cands) && 0 <= i < |cands|
    requires AscClique(g, t) && Extends(c, cands, t) && |t| > |c| && t[|c|] == cands[i]
    ensures Extends(c + [cands[i]], Keep(g, c + [cands[i]], cands[i + 1..]), t)
  {
    var v := cands[i];
    var c' := c + [v];
    assert t[..|c'|] == t[..|c|] + [t[|c|]];
    KeepMembers(g, c', cands[i + 1..]);
    forall k | |c'| <= k < |t| ensures t[k] in Keep(g, c', cands[i + 1..]) {
      assert t[k] in cands;
      var p :| 0 <= p < |cands| && cands[p] == t[k];
      assert t[|c|] < t[k];
      assert p > i;
      assert cands[i + 1..][p - i - 1] == t[k];
      forall m | 0 <= m < |c'| ensures Adj(g, c'[m], t[k]) {
        assert c'[m] == t[m];
      }
    }
  }

  /** A clique reachable from a child subproblem is reachable from its parent. */
  lemma ChildWithinParent(c: seq<int>, cands: seq<int>, i: int, sub: seq<int>, t: seq<int>)
    requires 0 <= i < |cands|
    requires forall w :: w in sub ==> w in cands
    requires Extends(c + [cands[i]], sub, t)
    ensures Extends(c, cands, t)
  {
    assert t[..|c|] == t[..|c| + 1][..|c|];
    assert t[|c|] == t[..|c| + 1][|c|];
    forall k | |c| <= k < |t| ensures t[k] in cands {
      if k > |c| {
        assert t[k] in sub;
        var j :| 0 <= j < |sub| && sub[j] == t[k];
        assert sub[j] in cands;
      } else {
        assert t[k] == t[..|c| + 1][|c|] == (c + [cands[i]])[|c|] == cands[i];
        assert cands[i] in cands;
      }
    }
  }

  /** Each vertex after the prefix of a reachable clique is a candidate. */
  lemma ReachedFromCandidates(c: seq<int>, cands: seq<int>, t: seq<int>, k: int)
    requires Extends(c, cands, t) && |c| <= k < |t|
    ensures t[k] in cands
  {
  }

  /** A subproblem without candidates reaches only its own clique. */
  lemma LeafReachesItself(c: seq<int>, t: seq<int>)
    requires Extends(c, [], t)
    ensures t == c
  {
    if |t| > |c| {
      ReachedFromCandidates(c, [], t, |c|);
      assert false;
    }
    assert t == t[..|c|];
  }

  /** No ascending clique reachable from (c, cands) has more than `size` vertices. */
  ghost predicate ReachableAtMost(g: Matrix, c: seq<int>, cands: seq<int>, size: int) {
    forall t :: AscClique(g, t) && Extends(c, cands, t) ==> |t| <= size
  }

  /** The same bound, for the reachable cliques longer than c whose next vertex
      is one of the first i candidates. */
  ghost predicate ReachableViaAtMost(g: Matrix, c: seq<int>, cands: seq<int>, i: int, size: int)
    requires 0 <= i <= |cands|
  {
    forall t :: AscClique(g, t) && Extends(c, cands, t) && |t| > |c| && t[|c|] in cands[..i] ==>
      |t| <= size
  }

  /** Having bounded the child built from candidate i bounds the cliques that
      go through candidate i. */
  lemma ViaStep(g: Matrix, c: seq<int>, cands: seq<int>, i: int, size: int)
    requires SearchState(g, c, cands) && 0 <= i < |cands|
    requires ReachableViaAtMost(g, c, cands, i, size)
    requires ReachableAtMost(g, c + [cands[i]], Keep(g, c + [cands[i]], cands[i + 1..]), size)
    ensures ReachableViaAtMost(g, c, cands, i + 1, size)
  {
    assert cands[..i + 1] == cands[..i] + [cands[i]];
    forall t | AscClique(g, t) && Extends(c, cands, t) && |t| > |c| && t[|c|] in cands[..i + 1]
      ensures |t| <= size
    {
      ViaOne(g, c, cands, i, size, t);
    }
  }

  /** The step of ViaStep for one clique t. */
  lemma ViaOne(g: Matrix, c: seq<int>, cands: seq<int>, i: int, size: int, t: seq<int>)
    requires SearchState(g, c, cands) && 0 <= i < |cands|
    requires ReachableViaAtMost(g, c, cands, i, size)
    requires ReachableAtMost(g, c + [cands[i]], Keep(g, c + [cands[i]], cands[i + 1..]), size)
    requires AscClique(g, t) && Extends(c, cands, t) && |t| > |c|
    requires t[|c|] in cands[..i] || t[|c|] == cands[i]
    ensures |t| <= size
  {
    if t[|c|] == cands[i] {
      ChildCovers(g, c, cands, i, t);
    }
  }

  /** Once every candidate has been tried, and some clique longer than c has
      been recorded, every reachable clique is bounded. */
  lemma ViaAll(g: Matrix, c: seq<int>, cands: seq<int>, size: int)
    requires ReachableViaAtMost(g, c, cands, |cands|, size) && |c| < size
    ensures ReachableAtMost(g, c, cands, size)
  {
    forall t | AscClique(g, t) && Extends(c, cands, t) ensures |t| <= size {
      if |t| > |c| {
        ReachedFromCandidates(c, cands, t, |c|);
        assert cands[..|cands|] == cands;
      } else {
        assert t == t[..|c|];
      }
    }
  }

  /** Without candidates, only c itself is reachable. */
  lemma LeafBound(g: Matrix, c: seq<int>, size: int)
    requires |c| <= size
    ensures ReachableAtMost(g, c, [], size)
  {
    forall t | AscClique(g, t) && Extends(c, [], t) ensures |t| <= size {
      LeafReachesItself(c, t);
    }
  }

  /** The candidates kept after position i are candidates. */
  lemma KeptAreCandidates(g: Matrix, c: seq<int>, cands: seq<int>, i: int, n: int)
    requires 0 <= i < |cands| && InRange(cands, n)
    ensures forall w :: w in Keep(g, c, cands[i + 1..]) ==> w in cands
    ensures InRange(Keep(g, c, cands[i + 1..]), n)
  {
    var r := Keep(g, c, cands[i + 1..]);
    KeepMembers(g, c, cands[i + 1..]);
    forall w | w in r ensures w in cands {
      var p :| i + 1 <= p < |cands| && cands[p] == w;
    }
    forall k | 0 <= k < |r| ensures 0 <= r[k] < n {
      assert r[k] in r;
      var p :| i + 1 <= p < |cands| && cands[p] == r[k];
    }
  }
}
