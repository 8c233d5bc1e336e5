/**
 Directed graphs given as adjacency matrices: cell (u, v) non-zero means
 there is an edge u -> v. Vertices are the row indices 0 .. n-1.
 */
module Graphs {

  type Matrix = seq<seq<int>>

  /** Every row has exactly one cell per vertex. */
  predicate IsSquare(g: Matrix) {
    forall i :: 0 <= i < |g| ==> |g[i]| == |g|
  }

  /** The edge test of the neighbour loop: `graph[u][v] != 0`. */
  predicate Edge(g: Matrix, u: int, v: int) {
    0 <= u < |g| && 0 <= v < |g[u]| && g[u][v] != 0
  }

  /** Position i of `p` has an edge to position i + 1. */
  ghost predicate Step(g: Matrix, p: seq<int>, i: int)
    requires 0 <= i < |p| - 1
  {
    Edge(g, p[i], p[i + 1])
  }

  /** Consecutive vertices of `p` are joined by edges. */
  ghost predicate IsPath(g: Matrix, p: seq<int>) {
    forall i :: 0 <= i < |p| - 1 ==> Step(g, p, i)
  }

  /** A path of at least one edge that comes back to where it started. */
  ghost predicate IsCycle(g: Matrix, p: seq<int>) {
    2 <= |p| && p[0] == p[|p| - 1] && IsPath(g, p)
  }

  /** The graph has no directed cycle (self-loops count as cycles). */
  ghost predicate Acyclic(g: Matrix) {
    forall p :: !IsCycle(g, p)
  }

  /** A path that ends in a vertex with an edge back to one of its own
      vertices closes a cycle. */
  lemma BackEdgeCloses(g: Matrix, s: seq<int>, v: int)
    requires IsPath(g, s)
    requires v in s
    requires Edge(g, s[|s| - 1], v)
    ensures !Acyclic(g)
  {
    var i :| 0 <= i < |s| && s[i] == v;
    var c := s[i..] + [v];
    forall k | 0 <= k < |c| - 1
      ensures Step(g, c, k)
    {
      if k < |s| - i - 1 {
        assert c[k] == s[i + k] && c[k + 1] == s[i + k + 1];
        assert Step(g, s, i + k);
      } else {
        assert c[k] == s[|s| - 1] && c[k + 1] == v;
      }
    }
    assert IsCycle(g, c);
  }
}
