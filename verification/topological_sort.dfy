/**
 Topological sorting by depth-first search: run the traversal with the hook
 that pushes every finished vertex on the front of a list, and return that
 list. The result is the vertices in decreasing finish time, which is a
 topological order exactly when the graph has no cycle.
 */
module TopologicalSort {
  import opened Graphs
  import opened Sequences
  import opened DfsEngine

  /** Every vertex 0 .. n-1 occurs in `order` exactly once, and nothing else. */
  ghost predicate Permutation(order: seq<int>, n: nat) {
    && |order| == n
    && (forall i :: 0 <= i < |order| ==> 0 <= order[i] < n)
    && (forall v :: 0 <= v < n ==> v in order)
    && Distinct(order)
  }

  /** Every edge between two listed vertices goes from left to right. */
  ghost predicate Topological(g: Matrix, order: seq<int>) {
    forall i, j :: 0 <= i < |order| && 0 <= j < |order| && Edge(g, order[i], order[j]) ==> i < j
  }

  /** Reversing a run of vertices in increasing finish time lists them in
      decreasing finish time, keeps it a permutation, and, when every edge
      goes from a later to an earlier finish, makes every edge point to
      the right. */
  lemma ReversedRun(g: Matrix, f: seq<int>, run: seq<int>)
    requires IsSquare(g) && |f| == |g|
    requires Permutation(run, |g|)
    requires forall i, j :: 0 <= i < j < |run| ==> f[run[i]] < f[run[j]]
    ensures Permutation(Reverse(run), |g|)
    ensures forall i, j :: 0 <= i < j < |run| ==> f[Reverse(run)[j]] < f[Reverse(run)[i]]
    ensures (forall u, v :: 0 <= u < |g| && 0 <= v < |g| && Edge(g, u, v) ==> f[v] < f[u])
            ==> Topological(g, Reverse(run))
  {
    var r := Reverse(run);
    var n := |run|;
    ReverseIndex(run);
    forall v | 0 <= v < |g|
      ensures v in r
    {
      assert v in run;
      var k :| 0 <= k < n && run[k] == v;
      assert r[n - 1 - k] == v;
    }
    forall i, j | 0 <= i < j < n
      ensures r[i] != r[j] && f[r[j]] < f[r[i]]
    {
      assert r[i] == run[n - 1 - i] && r[j] == run[n - 1 - j];
    }
    if forall u, v :: 0 <= u < |g| && 0 <= v < |g| && Edge(g, u, v) ==> f[v] < f[u] {
      forall i, j | 0 <= i < n && 0 <= j < n && Edge(g, r[i], r[j])
        ensures i < j
      {
        assert f[r[j]] < f[r[i]];
      }
    }
  }

  /** Along a path whose first vertex is listed at position i0, every later
      vertex is listed only to the right of i0 when the order is
      topological. */
  lemma {:induction false} PathClimbs(g: Matrix, order: seq<int>, p: seq<int>, k: nat, i0: int, j: int)
    requires Topological(g, order)
    requires forall v :: 0 <= v < |g| ==> v in order
    requires IsPath(g, p) && 1 <= k < |p|
    requires 0 <= i0 < |order| && order[i0] == p[0]
    requires 0 <= j < |order| && order[j] == p[k]
    ensures i0 < j
  {
    assert Step(g, p, k - 1);
    if k == 1 {
    } else {
      assert p[k - 1] in order;
      var j' :| 0 <= j' < |order| && order[j'] == p[k - 1];
      PathClimbs(g, order, p, k - 1, i0, j');
    }
  }

  /** A graph with a cycle has no topological order of all its vertices. */
  lemma CycleBlocksOrder(g: Matrix, order: seq<int>)
    requires !Acyclic(g)
    requires forall v :: 0 <= v < |g| ==> v in order
    ensures !Topological(g, order)
  {
    var p :| IsCycle(g, p);
    if Topological(g, order) {
      assert Step(g, p, 0);
      assert p[0] in order;
      var i0 :| 0 <= i0 < |order| && order[i0] == p[0];
      PathClimbs(g, order, p, |p| - 1, i0, i0);
    }
  }

  /** `topoSort()` on an object that may already have been used: one more
      traversal whose finished vertices are pushed on the front of the
      list. The first n entries are the vertices in decreasing finish time
      (a topological order when the graph is acyclic); the rest is the list
      as it was. */
  method TopoSort(g: Matrix, obj: Search) returns (st: Search, order: seq<int>)
    requires IsSquare(g) && Sized(obj, |g|)
    ensures Traversed(g, obj, st, LogAndPrepend)
    ensures order == st.topo
    ensures |order| == |g| + |obj.topo| && order[|g|..] == obj.topo
    ensures Permutation(order[..|g|], |g|)
    ensures forall i, j :: 0 <= i < j < |g| ==> st.f[order[j]] < st.f[order[i]]
    ensures Acyclic(g) ==> Topological(g, order[..|g|])
  {
    st := Dfs(g, obj, LogAndPrepend);
    order := st.topo;
    var run := st.path[|obj.path|..];
    assert order == Reverse(run) + obj.topo;
    assert order[..|g|] == Reverse(run);
    ReversedRun(g, st.f, run);
  }

  /** `new ToplogicalSort(graph).topoSort()`: a permutation of the vertices
      in decreasing finish time, and a topological order exactly when the
      graph is acyclic. */
  method TopologicalOrder(g: Matrix) returns (order: seq<int>)
    requires IsSquare(g)
    ensures Permutation(order, |g|)
    ensures Topological(g, order) <==> Acyclic(g)
  {
    var st;
    st, order := TopoSort(g, New(g));
    assert order[..|g|] == order;
    if !Acyclic(g) {
      CycleBlocksOrder(g, order);
    }
  }

  /** Calling `topoSort()` twice on the same object: the second list is the
      second traversal's order followed by the whole first list. */
  method TopoSortTwice(g: Matrix) returns (first: seq<int>, second: seq<int>)
    requires IsSquare(g)
    ensures |first| == |g| && |second| == 2 * |g|
    ensures second[|g|..] == first
    ensures Permutation(first, |g|) && Permutation(second[..|g|], |g|)
  {
    var st;
    st, first := TopoSort(g, New(g));
    st, second := TopoSort(g, st);
  }

  /** The adjacency matrix both demo programs sort. */
  function Demo(): (g: Matrix)
    ensures IsSquare(g) && |g| == 6
  {
    [ [0, 1, 0, 1, 0, 0],
      [0, 0, 0, 0, 1, 0],
      [0, 0, 0, 0, 1, 1],
      [0, 1, 0, 0, 0, 0],
      [0, 0, 0, 1, 0, 0],
      [0, 0, 0, 0, 0, 0] ]
  }

  /** The demo graph has the cycle 1 -> 4 -> 3 -> 1, so no order of its
      vertices is topological. */
  lemma DemoCyclic()
    ensures !Acyclic(Demo())
    ensures forall order :: (forall v :: 0 <= v < 6 ==> v in order) ==> !Topological(Demo(), order)
  {
    var g := Demo();
    var c := [1, 4, 3, 1];
    assert Step(g, c, 0) && Step(g, c, 1) && Step(g, c, 2);
    assert IsCycle(g, c);
    forall order | forall v :: 0 <= v < 6 ==> v in order
      ensures !Topological(g, order)
    {
      CycleBlocksOrder(g, order);
    }
  }
}
