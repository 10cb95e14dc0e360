# Maximum clique search: a verified model

The repository finds one maximum clique of an undirected graph, stored as a
dense 0/1 adjacency matrix. It runs the same exhaustive search under three
strategies:

- `busca_exaustiva.cpp`: one thread. A recursive backtracking search
  (`CliqueMaximaExaustiva`) grows the current clique in place. It filters
  the later candidates down to those adjacent to the whole clique. It
  replaces the by-reference best clique only when it finds a strictly
  larger clique.
- `mc_openmp.cpp`: threads. Each seed vertex `i` starts a search from the
  root frame `([i], {j > i adjacent to i})`. An explicit stack (`pilha`) of
  (clique, candidates) frames replaces the recursion. Every thread keeps a
  local best clique over all its seeds. A critical section merges that
  local best into the shared one with the same keep-if-strictly-larger
  rule.
- `mc_mpi.cpp`: processes. The same per-seed stack search runs on each
  rank, which takes the seeds `rank, rank + size, ...`. Rank 0 walks the
  local results in rank order and keeps the first strictly larger one.

The Dafny modules follow that structure:

| module | contents |
|---|---|
| `Graph` | The matrix and the loop of `LerGrafo` that fills it from the edge list. |
| `Cliques` | Cliques as ascending sequences and as vertex sets; maximum cliques and their consequences. |
| `Candidates` | The adjacency check, the candidate filter `Keep`, and the invariant tying a partial clique to its candidates. Also the lemmas showing that a child subproblem keeps that invariant and still reaches what its parent could. |
| `Exhaustive` | `busca_exaustiva.cpp`: the recursive search and its top-level call. |
| `StackSearch` | The per-seed explicit-stack search and the per-worker loop over seeds. `mc_mpi.cpp` and `mc_openmp.cpp` contain the same statements, differing only in comments and in how the seed loop is written (a loop over the rank's vertex list against an `omp for` over every vertex), and the model defines it once. |
| `Reducer` | The keep-if-strictly-larger merge, and the fold of it over a list of local results. |
| `Mpi` | `mc_mpi.cpp`: the round-robin seed split, rank 0's rank-order reduction, and every rank's search run one after another. |
| `OpenMp` | `mc_openmp.cpp`: every thread's search and merges, in any order and for any hand-out of the seeds that covers every vertex. |

C++ vectors are `seq<int>`. By-reference parameters are in-out values:
the method takes the value on entry and returns the value on exit. The
search proofs use the candidate-set invariant `SearchState`:

- the clique is ascending;
- the candidates are ascending;
- every candidate comes after the clique's last vertex;
- every candidate is adjacent to every clique member.

Completeness of the search is stated through `Extends(c, cands, t)`: the
clique `t` is `c` followed only by vertices from `cands`. That is, the
subproblem `(c, cands)` can still reach `t`.

The stack loop terminates because `Weight`, the sum over the frames on the
stack of 2 to the power of the frame's candidate count, strictly decreases
with every pop. The
one-thread search terminates because each recursive call has fewer
candidates.

## Model

| member | source | states |
|---|---|---|
| Graph.FillMatrix | busca_exaustiva.cpp:14-21 | For edge ids in 1..n, the result is n x n. Entry [a][b] is 1 exactly when (a+1, b+1) or (b+1, a+1) is a listed edge, and 0 otherwise. So the matrix is square, 0/1 and symmetric. The same build appears at mc_mpi.cpp:17-24 and mc_openmp.cpp:17-24. |
| Candidates.AdjacentToAll | busca_exaustiva.cpp:43-49 | The scan that stops at the first clique member u with grafo[u][v] == 0. It answers true exactly when v is adjacent to every member of the clique. |
| Candidates.Keep | busca_exaustiva.cpp:62-79 | The new candidates are a filter of the later candidates, so there are never more of them than later candidates. |
| Candidates.KeepMembers | busca_exaustiva.cpp:62-79 | A vertex is kept exactly when it is a later candidate adjacent to every member of the extended clique. |
| Candidates.KeepAscending | busca_exaustiva.cpp:62-79 | Filtering keeps the order: the new candidates of an ascending list are ascending. |
| Candidates.KeepNewestSuffices | mc_mpi.cpp:139-147 | Suppose the later candidates are already adjacent to the whole clique. Then testing adjacency to the new vertex v alone, as the stack search does, keeps the same candidates as testing the whole extended clique. |
| Candidates.ChildState | busca_exaustiva.cpp:52-82 | Extending a valid subproblem by its i-th candidate and filtering gives a valid subproblem again. The extended clique is an ascending clique, and the new candidates are ascending, later and adjacent to all of it. The child has strictly fewer candidates, which is why the recursion terminates. |
| Candidates.ChildCovers | busca_exaustiva.cpp:52-82 | Every clique the parent can reach through its i-th candidate can be reached from the child subproblem, so no clique is lost by the filtering. |
| Candidates.ChildWithinParent | busca_exaustiva.cpp:62-82 | A clique reachable from the child can be reached from the parent, so the recursion records only cliques of the parent's branch. |
| Exhaustive.KeepAdjacentToAll | busca_exaustiva.cpp:62-79 | The loop building novosCandidatos computes exactly `Keep` of the extended clique over the candidates after position i. |
| Exhaustive.CliqueMaximaExaustiva | busca_exaustiva.cpp:28-88 | The current clique is back to its entry value on return: each push_back is undone by its pop_back. The best clique either stays as it was or becomes strictly larger. On a valid subproblem, a new best clique is an ascending clique reachable from the subproblem. No ascending clique reachable from the subproblem is longer than the returned best. |
| Exhaustive.AllVertices | busca_exaustiva.cpp:106-109 | The initial candidate vector holds candidatos[i] == i for every vertex. |
| Exhaustive.MaximumClique | busca_exaustiva.cpp:105-114 | Starting from the empty clique with every vertex as a candidate, the reported clique is a maximum clique: no clique of the graph, as a vertex set, is larger. |
| Cliques.EdgelessMaximum | busca_exaustiva.cpp:105-114 | In a graph with at least one vertex and no edges, a maximum clique has exactly one vertex. |
| Cliques.CompleteMaximum | busca_exaustiva.cpp:105-114 | In a complete graph on n vertices, a maximum clique has n vertices. |
| Cliques.MaximumSizesAgree | mc_openmp.cpp:132-137 | Two maximum cliques of the same graph have the same size. So the three strategies report the same size even where the tie-break picks different vertices. |
| Cliques.MaximumIsMaximal | busca_exaustiva.cpp:105-114 | No vertex outside a maximum clique is adjacent to all of its members. |
| StackSearch.RootCandidates | mc_mpi.cpp:91-97 | The root candidates of seed i are ascending. They are exactly the j > i with grafo[i][j] == 1. The thread-parallel strategy has the same loop at mc_openmp.cpp:60-67. |
| StackSearch.RootFrame | mc_mpi.cpp:89-101 | The root frame ([i], root candidates) satisfies the frame invariant. Every ascending clique whose smallest vertex is i can be reached from it, so a clique is explored only from its smallest vertex. |
| StackSearch.KeepAdjacentTo | mc_mpi.cpp:139-147 | The loop building novosCandidatos keeps exactly the later candidates adjacent to v. |
| StackSearch.Expand | mc_mpi.cpp:119-156 | For a popped frame with candidates, the adjacency check always succeeds. Exactly one child frame is pushed per candidate, in candidate order, and the stack below stays as it was. All children have one more vertex than the frame, so the best clique becomes the first child's clique exactly when that is strictly larger, and stays unchanged otherwise. The thread-parallel strategy has the same loop at mc_openmp.cpp:89-127. |
| StackSearch.ChildrenWeight | mc_mpi.cpp:119-150 | A popped frame with k candidates pushes children whose candidate counts c satisfy: the sum of 2^c is less than 2^k. So the sum, over the frames on the stack, of 2 to the power of the frame's candidate count strictly decreases with every pop, which is why the while loop terminates. |
| StackSearch.ChildrenPrefixWeight | mc_mpi.cpp:119-150 | After the children of the first j candidates are pushed, the stack weighs at most its weight before the pop, less 2^(k-j). |
| StackSearch.ChildrenOk | mc_mpi.cpp:132-150 | Every frame pushed satisfies the frame invariant: its clique starts with the seed and is an ascending clique, and its candidates are ascending, later and adjacent to the whole clique. |
| StackSearch.ChildrenCover | mc_mpi.cpp:119-150 | Every clique a popped frame can reach, other than the frame's own clique, can be reached from one of the frames pushed for it. |
| StackSearch.AccountedAfterPop | mc_mpi.cpp:103-105 | Popping the top frame and pushing frames that cover what it could reach keeps the loop invariant. The loop invariant is that every clique starting at the seed is no longer than the best or reachable from a frame still on the stack. |
| StackSearch.LeafPopped | mc_mpi.cpp:110-116 | Popping a frame without candidates, after the best clique has been updated with it, keeps the stack invariants. |
| StackSearch.ChildrenAccount | mc_mpi.cpp:119-150 | Once the best clique is longer than a popped frame's clique, every seed clique that frame could reach is no longer than the best or reachable from one of the children pushed for it. |
| StackSearch.ExpandedPopped | mc_mpi.cpp:118-156 | Replacing a popped frame by its children keeps the stack invariants, and its first child's clique starts at the seed. |
| StackSearch.SeedSearch | mc_mpi.cpp:89-157 | The per-seed search leaves the local best unchanged, or replaces it by a strictly larger ascending clique whose smallest vertex is the seed. Afterwards no clique whose smallest vertex is the seed is longer than the local best. The thread-parallel strategy has the same search at mc_openmp.cpp:56-128. |
| StackSearch.SeedDone | mc_mpi.cpp:88-158 | After the search from one more seed, the local best is a non-empty ascending clique starting at one of the seeds so far, and no clique starting at one of them is longer. |
| StackSearch.LocalSearch | mc_mpi.cpp:79-158 | After all seeds of a worker, the local best is empty exactly when there are no seeds. Otherwise it is an ascending clique whose smallest vertex is a seed. No clique whose smallest vertex is a seed is longer, so its size is that of the largest such clique. |
| Reducer.Merge | mc_openmp.cpp:134-136 | The merged clique is one of the two inputs, and it is at least as long as both. On a tie or a shorter local clique, the global one is kept. |
| Reducer.FoldUpperBound | mc_mpi.cpp:184-188 | Merging local results in order yields a clique no shorter than the start value or any local result. |
| Reducer.FoldPicksFirstLongest | mc_mpi.cpp:184-188 | Merging local results gives the start value when no local result is longer. Otherwise it gives the first local result, in order, that is longer than the start value and every earlier result. |
| Mpi.LocalVertices | mc_mpi.cpp:82-85 | The seeds of a rank are ascending. They are exactly the vertices whose remainder modulo the number of ranks is the rank. So the ranks' seed lists partition the vertices. |
| Mpi.ReduceRanks | mc_mpi.cpp:183-188 | Rank 0's loop is at least as long as every rank's local clique. It equals the first rank's local clique of maximal size, or is empty when there are no ranks. |
| Mpi.Run | mc_mpi.cpp:79-188 | With any positive number of ranks, the clique rank 0 reports is a maximum clique of the graph. |
| OpenMp.Run | mc_openmp.cpp:47-138 | For any order of the threads and any hand-out of the seeds that covers every vertex, the shared clique after all merges is a maximum clique of the graph. |

## Left out

- File reading, argument checks, exit codes and console output (1-indexed vertices) are I/O. `Graph.FillMatrix` takes the edge list as a parameter, and the parse of the vertex and edge counts is not modelled.
- Graph.FillMatrix: requires edge ids within 1..n. An id outside that range is undefined behaviour in the code, which indexes the vector without a check.
- Timing through `std::chrono` is left out, because it is wall-clock time and floating point.
- MPI plumbing is not modelled. This covers `MPI_Init`/`MPI_Finalize`, the broadcast of the matrix, the gather of sizes, the sends and receives of vertex lists, and the barrier. `Mpi.Run` runs every rank's search in turn on the same matrix and hands the list of local results to the reduction.
- `Mpi.LocalVertices` requires `size >= 1` and `0 <= rank < size`, which is what the MPI runtime guarantees for the values it reports.
- OpenMP concurrency is not modelled. This covers the parallel region, `schedule(dynamic)` and the critical section. `OpenMp.Run` takes the threads' seed lists as a parameter and runs the threads one after another. Accepting every schedule that covers the vertices, in every order, includes each interleaving of the critical sections.
- Which of several maximum cliques is reported depends on visitation order, so the top-level contracts state size and validity only. `Reducer.FoldPicksFirstLongest` does pin down the rank-order choice of the distributed reduction.
- An undirected simple graph has no self-loops, but `LerGrafo` does not reject an edge (u, u). The model accepts such matrices too. No search's result depends on a diagonal entry: the root loop reads `grafo[i][i]` but discards it through `j > i`, and every other read pairs a clique member with a larger candidate.
- Vertex ids, counters and `i += size` are C++ `int`; the model uses unbounded `int`. Overflow is unreachable in practice, because the dense n x n matrix bounds n far below `INT_MAX`, but no fixed width is modelled.
- A rank with no seeds (when the number of ranks exceeds the number of vertices) sends and receives `&v[0]` of an empty vector, which C++ leaves undefined. `Mpi.Run` accepts any `size >= 1` and assumes that rank's empty result arrives intact.

