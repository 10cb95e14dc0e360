/** The dense adjacency matrix of the input graph, and the loop that fills it
    from the list of edges read from the input file. */
module Graph {

  /** Row-major adjacency matrix: entry [u][v] is 1 when u and v are joined by
      an edge and 0 otherwise. Vertices are 0 .. |g| - 1. */
  type Matrix = seq<seq<int>>

  /** An edge as it appears in the input file: two 1-indexed vertex ids. */
  type Edge = (int, int)

  ghost predicate IsSquare(g: Matrix) {
    forall a :: 0 <= a < |g| ==> |g[a]| == |g|
  }

  /** The matrix of an undirected graph: square, every entry 0 or 1, symmetric. */
  ghost predicate IsAdjMatrix(g: Matrix) {
    IsSquare(g) &&
    (forall a, b :: 0 <= a < |g| && 0 <= b < |g| ==> g[a][b] == 0 || g[a][b] == 1) &&
    (forall a, b :: 0 <= a < |g| && 0 <= b < |g| ==> g[a][b] == g[b][a])
  }

  lemma EntryIsBit(g: Matrix, a: int, b: int)
    requires IsAdjMatrix(g) && 0 <= a < |g| && 0 <= b < |g|
    ensures |g[a]| == |g| && (g[a][b] == 0 || g[a][b] == 1)
  {
  }

  /** u and v are adjacent (false for indices outside the matrix). */
  ghost predicate Adj(g: Matrix, u: int, v: int) {
    0 <= u < |g| && 0 <= v < |g[u]| && g[u][v] == 1
  }

  /** Edge e joins the 0-indexed vertices a and b, in either direction. */
  ghost predicate Joins(e: Edge, a: int, b: int) {
    (e.0 == a + 1 && e.1 == b + 1) || (e.0 == b + 1 && e.1 == a + 1)
  }

  /** One of the first `count` edges joins a and b. */
  ghost predicate ListedBefore(edges: seq<Edge>, count: int, a: int, b: int) {
    exists k :: 0 <= k < count && k < |edges| && Joins(edges[k], a, b)
  }

  ghost predicate Listed(edges: seq<Edge>, a: int, b: int) {
    ListedBefore(edges, |edges|, a, b)
  }

  /** Every edge names two vertices of 1 .. n. */
  ghost predicate EdgesInRange(n: int, edges: seq<Edge>) {
    forall k :: 0 <= k < |edges| ==> 1 <= edges[k].0 <= n && 1 <= edges[k].1 <= n
  }

  /** The matrix-filling part of LerGrafo: an n x n matrix of zeros in which
      both [u-1][v-1] and [v-1][u-1] are set to 1 for every edge (u, v). */
  method FillMatrix(n: nat, edges: seq<Edge>) returns (g: Matrix)
    requires EdgesInRange(n, edges)
    ensures |g| == n && IsSquare(g)
    ensures forall a, b :: 0 <= a < n && 0 <= b < n ==>
              g[a][b] == if Listed(edges, a, b) then 1 else 0
    ensures IsAdjMatrix(g)
  {
    g := seq(n, _ => seq(n, _ => 0));
    var i := 0;
    while i < |edges|
      invariant 0 <= i <= |edges|
      invariant |g| == n && IsSquare(g)
      invariant forall a, b :: 0 <= a < n && 0 <= b < n ==>
                  g[a][b] == if ListedBefore(edges, i, a, b) then 1 else 0
    {
      var (u, v) := edges[i];
      g := g[u - 1 := g[u - 1][v - 1 := 1]];
      g := g[v - 1 := g[v - 1][u - 1 := 1]];
      forall a, b | 0 <= a < n && 0 <= b < n
        ensures ListedBefore(edges, i + 1, a, b) <==>
                ListedBefore(edges, i, a, b) || Joins(edges[i], a, b)
      {
        if Joins(edges[i], a, b) {
          assert 0 <= i < i + 1 && Joins(edges[i], a, b);
        }
      }
      i := i + 1;
    }
  }
}
