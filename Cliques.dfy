/** What a clique and a maximum clique are, and the facts about them that the
    three search strategies rely on or promise. */
module Cliques {
  import opened Graph

  /** Strictly increasing: the order in which every search lists vertices. */
  ghost predicate Ascending(s: seq<int>) {
    forall i, j :: 0 <= i < j < |s| ==> s[i] < s[j]
  }

  /** Every entry is a vertex of a graph with n vertices. */
  ghost predicate InRange(s: seq<int>, n: int) {
    forall k :: 0 <= k < |s| ==> 0 <= s[k] < n
  }

  /** A clique written as a sequence: vertices of g, no vertex twice, and every
      earlier member adjacent to every later one. */
  ghost predicate IsClique(g: Matrix, s: seq<int>) {
    InRange(s, |g|) &&
    forall i, j :: 0 <= i < j < |s| ==> s[i] != s[j] && Adj(g, s[i], s[j])
  }

  /** The shape in which the searches build cliques: in ascending vertex order. */
  ghost predicate AscClique(g: Matrix, s: seq<int>) {
    IsClique(g, s) && Ascending(s)
  }

  /** A clique as a set of vertices: every two distinct members are adjacent. */
  ghost predicate IsCliqueSet(g: Matrix, S: set<int>) {
    (forall u :: u in S ==> 0 <= u < |g|) &&
    forall u, v :: u in S && v in S && u != v ==> Adj(g, u, v)
  }

  /** s is a clique and no clique of g has more vertices. */
  ghost predicate IsMaximumClique(g: Matrix, s: seq<int>) {
    IsClique(g, s) && forall S :: IsCliqueSet(g, S) ==> |S| <= |s|
  }

  ghost function Elems(s: seq<int>): set<int> {
    set x | x in s
  }

  // ---------------------------------------------------------------------
  // From sets to ascending sequences and back

  /** The members of S below n, in ascending order. */
  ghost function InOrder(S: set<int>, n: nat): (s: seq<int>)
    ensures Ascending(s) && InRange(s, n)
    ensures forall x :: x in s <==> 0 <= x < n && x in S
  {
    if n == 0 then []
    else InOrder(S, n - 1) + (if n - 1 in S then [n - 1] else [])
  }

  /** Every clique set, listed in ascending order, is an ascending clique of the same size. */
  lemma SortedCliqueSet(g: Matrix, S: set<int>)
    requires IsCliqueSet(g, S)
    ensures AscClique(g, InOrder(S, |g|)) && |InOrder(S, |g|)| == |S|
  {
    var s := InOrder(S, |g|);
    forall i, j | 0 <= i < j < |s| ensures s[i] != s[j] && Adj(g, s[i], s[j]) {
      assert s[i] in S && s[j] in S;
    }
    DistinctCard(s);
    assert Elems(s) == S;
  }

  /** A sequence without repeated vertices has as many elements as its set. */
  lemma {:induction false} DistinctCard(s: seq<int>)
    requires forall i, j :: 0 <= i < j < |s| ==> s[i] != s[j]
    ensures |Elems(s)| == |s|
  {
    if s != [] {
      DistinctCard(s[1..]);
      assert Elems(s) == {s[0]} + Elems(s[1..]);
      assert s[0] !in Elems(s[1..]);
    }
  }

  /** The set behind a clique sequence is a clique set of the same size. */
  lemma CliqueElems(g: Matrix, s: seq<int>)
    requires IsAdjMatrix(g) && IsClique(g, s)
    ensures IsCliqueSet(g, Elems(s)) && |Elems(s)| == |s|
  {
    DistinctCard(s);
    forall u, v | u in Elems(s) && v in Elems(s) && u != v ensures Adj(g, u, v) {
      var i :| 0 <= i < |s| && s[i] == u;
      var j :| 0 <= j < |s| && s[j] == v;
      if j < i {
        assert Adj(g, v, u);
      }
    }
  }

  lemma SubsetCard(A: set<int>, B: set<int>)
    requires A <= B
    ensures |A| <= |B|
  {
    assert B == A + (B - A);
  }

  /** The vertex set {0, ..., n-1}. */
  ghost function Vertices(n: nat): (V: set<int>)
    ensures |V| == n
    ensures forall x :: x in V <==> 0 <= x < n
  {
    if n == 0 then {} else Vertices(n - 1) + {n - 1}
  }

  /** The first two members of a clique are adjacent. */
  lemma CliquePair(g: Matrix, s: seq<int>)
    requires IsClique(g, s) && |s| >= 2
    ensures Adj(g, s[0], s[1])
  {
  }

  // ---------------------------------------------------------------------
  // Consequences of being a maximum clique

  /** Two maximum cliques of the same graph have the same size: the strategies
      may return different vertex sequences but never different sizes. */
  lemma MaximumSizesAgree(g: Matrix, s1: seq<int>, s2: seq<int>)
    requires IsAdjMatrix(g)
    requires IsMaximumClique(g, s1) && IsMaximumClique(g, s2)
    ensures |s1| == |s2|
  {
    CliqueElems(g, s1);
    CliqueElems(g, s2);
  }

  /** A maximum clique is maximal: no vertex outside it is adjacent to all of it. */
  lemma MaximumIsMaximal(g: Matrix, s: seq<int>, w: int)
    requires IsAdjMatrix(g) && IsMaximumClique(g, s)
    requires 0 <= w < |g| && w !in s
    ensures exists k :: 0 <= k < |s| && !Adj(g, s[k], w)
  {
    CliqueElems(g, s);
    var S := Elems(s) + {w};
    assert w !in Elems(s);
    assert |S| == |s| + 1;
    if forall k :: 0 <= k < |s| ==> Adj(g, s[k], w) {
      forall u, v | u in S && v in S && u != v ensures Adj(g, u, v) {
        if u == w {
          var j :| 0 <= j < |s| && s[j] == v;
          assert Adj(g, v, w);
        } else if v == w {
          var i :| 0 <= i < |s| && s[i] == u;
          assert Adj(g, u, w);
        }
      }
      assert IsCliqueSet(g, S);
    }
  }

  /** In a graph with at least one vertex and no edges, a maximum clique is a single vertex. */
  lemma EdgelessMaximum(g: Matrix, s: seq<int>)
    requires IsAdjMatrix(g) && |g| >= 1
    requires forall u, v :: 0 <= u < |g| && 0 <= v < |g| ==> g[u][v] == 0
    requires IsMaximumClique(g, s)
    ensures |s| == 1
  {
    assert IsCliqueSet(g, {0});
    if |s| >= 2 {
      CliquePair(g, s);
    }
  }

  /** In the complete graph on n vertices, a maximum clique has all n vertices. */
  lemma CompleteMaximum(g: Matrix, s: seq<int>)
    requires IsAdjMatrix(g)
    requires forall u, v :: 0 <= u < |g| && 0 <= v < |g| && u != v ==> g[u][v] == 1
    requires IsMaximumClique(g, s)
    ensures |s| == |g|
  {
    var all := Vertices(|g|);
    assert IsCliqueSet(g, all);
    CliqueElems(g, s);
    SubsetCard(Elems(s), all);
  }
}
