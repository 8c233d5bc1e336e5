# Depth-first search with timestamps, and topological sort

This project models the textbook three-colour depth-first search over an
adjacency matrix. `DFS.java` and `ToplogicalSort.java` implement it.

- Every vertex starts WHITE. It turns GRAY when it is discovered and gets
  discovery time `d`. It turns BLACK when it is finished and gets finish
  time `f`.
- One global clock supplies both stamps. It ticks once per event.
- `predecessor` records the vertex each visit was called from.
- When a vertex finishes, `onVisit` appends it to the space-separated log
  `dfsPath`.
- In the topological sort, `onVisit` also pushes the vertex on the front of
  `topoList`. `topoSort()` returns that list. After the first call on a
  new object it holds the vertices in decreasing finish time; each later
  call pushes another n vertices on its front.

The two classes are the same algorithm with two different `onVisit`s. The
model therefore has one engine, parameterised by a `Hook`:

- `LogOnly` is `DFS.java`.
- `LogAndPrepend` is `ToplogicalSort.java`.

Modules:

- `Graphs` (`graphs.dfy`): matrices, edges, paths, cycles, acyclicity. It
  also proves that an edge back into the chain of active calls closes a
  cycle.
- `Sequences` (`sequences.dfy`): `Reverse`, distinctness, counting
  lemmas.
- `DfsEngine` (`dfs_engine.dfy`): the object state `Search`. It holds the
  colour, predecessor, `d`, `f`, the clock, the finish log (`dfsPath` as a
  sequence of vertices) and `topoList`. It also holds the operations
  `Dfs` (`dfs()`), `DfsVisit` (`dfsVisit`), `Explore` (one turn of its
  neighbour loop) and `Finish`/`OnVisit`, together with their invariants:
  - the timestamps are ordered and distinct;
  - the GRAY vertices are exactly the chain of active calls, linked by
    predecessors;
  - intervals nest;
  - the predecessor links follow edges;
  - the finish log lists the finished vertices in increasing `f`;
  - in an acyclic graph, every edge goes from a later finish to an earlier
    one.
- `TopologicalSort` (`topological_sort.dfy`): `topoSort()` on a used or a
  fresh object. It proves that the result is a permutation in decreasing
  finish time, and that the result is topological exactly when the graph
  is acyclic. It also shows that the demo graph of both programs has a
  cycle.

The objects are modelled as immutable values. Each operation takes the
object's state and returns the new one. `DfsVisit` takes two ghost
parameters:

- the chain of active calls;
- the length the finish log had when the current `dfs()` began. Both logs
  keep growing across repeated calls.

The source comment calls matrix values of an edge "non-negative (1)", but
the code tests `graph[u][v] != 0`. The model follows the code, so any
non-zero cell, including a negative one, is an edge.

## Model

| member | source | states |
|---|---|---|
| DfsEngine.New | DFS.java:25-33 | A new object has every vertex WHITE (Java zero-fills `color`, and WHITE is 0), the clock at 0 and both logs empty. |
| DfsEngine.ResetInv | DFS.java:37-46 | After the reset loop and `time = 0`, every invariant of the traversal holds with no active call. |
| DfsEngine.DiscoverKeeps | DFS.java:65-72 | Turning a WHITE vertex GRAY with `d[u] = ++time` keeps every invariant and pushes u on the GRAY chain. The predecessor link to the caller becomes part of the tree. |
| DfsEngine.SetPredKeeps | DFS.java:81-84 | Setting `predecessor[v] = u` for a WHITE out-neighbour keeps every invariant, and v is then "called from" u along an edge. |
| DfsEngine.WhitesShrink | DFS.java:87 | When the recursive call is made, the caller's own discovery has already removed a vertex from the WHITE set, so the recursion terminates. |
| DfsEngine.Explore | DFS.java:75-89 | One neighbour-loop turn keeps the invariants and advances the scan. Afterwards column v is not a WHITE out-neighbour, and in an acyclic graph every scanned out-neighbour is BLACK. |
| Graphs.BackEdgeCloses | DFS.java:81 | An edge from the innermost active vertex to a GRAY vertex closes a directed cycle. So the guard `color[v] == WHITE` can only skip a GRAY neighbour in a cyclic graph. |
| DfsEngine.ScanSkip | DFS.java:81 | Skipping a column that is not a WHITE out-neighbour advances the scan. In an acyclic graph, a skipped out-neighbour is BLACK. |
| DfsEngine.ScanWhite | DFS.java:84-87 | After the recursive visit of v, the visit of u has gained only vertices finished inside it, and v is no longer WHITE. |
| DfsEngine.FinishKeeps | DFS.java:91-98 | Blackening u with `f[u] = ++time` and calling `onVisit` pops u off the GRAY chain and keeps every invariant. The finish log grows by u, which has the largest `f` so far. |
| DfsEngine.ScanEnd | DFS.java:91-98 | Finishing u after the loop gives `d[u] < f[u]` equal to the final clock. Each vertex discovered during the visit finishes inside u's interval, and no out-neighbour of u is WHITE. |
| DfsEngine.ExtendsTrans | DFS.java:102-106 | Appending to `dfsPath` (and pushing on `topoList`) across nested visits composes: each log is its old contents plus, in finish order (reversed for `topoList`), everything finished since. |
| DfsEngine.DfsVisit | DFS.java:63-99 | `dfsVisit(u)` on a WHITE u keeps every invariant and restores the GRAY chain. u becomes BLACK with `d[u] = time0 + 1 < f[u] = time`. Vertices that were not WHITE are untouched. Every newly discovered vertex nests inside u. No out-neighbour stays WHITE. In an acyclic graph, every out-neighbour finishes before u. The same visit under the topological-sort hook (`dfsVisit` at ToplogicalSort.java lines 82-118) also pushes the vertices finished during the visit on the front of `topoList`, in decreasing finish order. |
| DfsEngine.OuterVisit | DFS.java:49-54 | A root visit from the outer loop leaves vertices 0..u BLACK and every WHITE vertex without a predecessor. |
| DfsEngine.AllFinished | DFS.java:49-54 | When every vertex is BLACK and no call is active, this run of the finish log holds each vertex exactly once, and the clock reads 2n. |
| DfsEngine.Completed | DFS.java:35-61 | At the end of the outer loop, everything `Traversed` promises holds. |
| DfsEngine.Dfs | DFS.java:35-61 | `dfs()` leaves every vertex BLACK and the clock at 2n. For every vertex, `1 <= d < f <= 2n`, and all 2n stamps are distinct. Any two intervals are disjoint or nested. Every predecessor link is an edge from an earlier-discovered vertex that finished later. `dfsPath` gains a permutation of the vertices in increasing `f`. In an acyclic graph, every edge (u, v) has `f[v] < f[u]`. Under the topological-sort hook (`dfs()` at ToplogicalSort.java lines 46-72), `topoList` gains, at its front, the reverse of this run's finish log. |
| TopologicalSort.ReversedRun | ToplogicalSort.java:121-128 | Pushing each finished vertex on the front yields a permutation in decreasing finish time. If every edge goes to an earlier finish, every edge points right in the list. |
| TopologicalSort.TopoSort | ToplogicalSort.java:46-80 | `topoSort()` returns a list. Its first n entries are a permutation of the vertices with `f` strictly decreasing, topological when the graph is acyclic. The rest is the list from earlier calls, unchanged. |
| TopologicalSort.TopologicalOrder | ToplogicalSort.java:35-44 | On a new object, `topoSort()` returns a permutation of the vertices. It is a topological order if and only if the graph is acyclic. |
| TopologicalSort.CycleBlocksOrder | ToplogicalSort.java:5-8 | A graph with a directed cycle has no linear order of its vertices in which all edges go left to right. |
| TopologicalSort.PathClimbs | ToplogicalSort.java:5-10 | In a topological order, each vertex along a path is listed to the right of the path's first vertex. |
| TopologicalSort.TopoSortTwice | ToplogicalSort.java:74-80 | A second `topoSort()` on the same object returns 2n entries. The new run's permutation comes first, followed by the entire first result. |
| TopologicalSort.DemoCyclic | ToplogicalSort.java:133-146 | The demo matrix has the cycle 1 -> 4 -> 3 -> 1, so no order of its vertices is topological. |

## Left out

- The `System.out.println` debug output at the end of `dfs()` and the `main` demos: I/O. The demo matrix itself is modelled (`Demo`), and so is its cyclicity.
- The string formatting of `dfsPath` (`u + " "`): the log is modelled as the sequence of vertices it spells out.
- `LinkedList`: `topoList` is a sequence, and `addFirst` is prepending.
- TopologicalSort.TopoSortTwice: in Java `topoSort()` returns the object's own live list, so after a second call the list obtained from the first call is the same object and holds 2n entries too; the model returns values and compares the lists as they were when each call returned.
- Colours are a datatype rather than the `int` constants 0/1/2.
- The reset loop of `dfs()` is modelled as one state update, not an index loop.
- Cycle detection and error reporting: the source has none. On a cyclic graph `topoSort()` still returns a permutation, and the model proves only that, with acyclicity as the hypothesis of the ordering claims.
- Malformed matrices: every operation requires a square matrix. In the source a row shorter than n is scanned without error, its missing cells acting as non-edges; only a non-zero cell beyond column n-1 reaches `color[v]` out of bounds, since the `&&` in the neighbour test evaluates `color[v]` only after the cell is found non-zero.
- 32-bit overflow of `time`: the clock reaches only 2n, so wrap-around would need 2^30 or more vertices (then the last finish stamp 2n exceeds the largest Java `int`).
- Recursion depth: Java's stack limit on deep recursion is not modelled.
- DfsEngine.Dfs: states that every predecessor other than -1 is an edge from an earlier-discovered vertex that finished later, but not the converse fact that -1 marks exactly the roots of the outer loop, because that would need a ghost record of the roots and adds nothing to the ordering properties.
- `d` and `f` of a vertex not yet visited in the current run keep their values from the previous run, or 0. The model leaves them unconstrained.
