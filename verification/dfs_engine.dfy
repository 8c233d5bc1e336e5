/**
 The timestamped three-colour depth-first search shared by the plain DFS and
 the topological sort. The whole object state (colour, predecessor, discovery
 and finish stamps, the clock and the two finish logs) is a `Search` value;
 `DfsVisit` and `Dfs` take one and return the next. The only difference
 between the two programs, the `onVisit` hook, is the `Hook` parameter.
 */
module DfsEngine {
  import opened Graphs
  import opened Sequences

  /** WHITE = undiscovered, GRAY = discovered and not finished, BLACK = finished. */
  datatype Color = White | Gray | Black

  /** What `onVisit(u)` does: append u to the finish log only (DFS), or
      also put u at the head of the topological list (topological sort). */
  datatype Hook = LogOnly | LogAndPrepend

  /** The fields of the search object. `path` is the finish log (`dfsPath`)
      and `topo` the topological list (`topoList`); both live as long as the
      object and are not reset by `Dfs`. */
  datatype Search = Search(
    color: seq<Color>,
    pred: seq<int>,
    d: seq<int>,
    f: seq<int>,
    time: int,
    path: seq<int>,
    topo: seq<int>)

  /** The per-vertex arrays all have one slot per vertex. */
  predicate Sized(st: Search, n: nat) {
    |st.color| == n && |st.pred| == n && |st.d| == n && |st.f| == n
  }

  /** A freshly constructed object: Java zero-fills its int arrays, and
      colour 0 is WHITE. Both logs start empty. */
  function New(g: Matrix): (st: Search)
    ensures Sized(st, |g|)
    ensures forall v :: 0 <= v < |g| ==> st.color[v] == White
    ensures st.time == 0 && st.path == [] && st.topo == []
  {
    var n := |g|;
    Search(seq(n, _ => White), seq(n, _ => 0), seq(n, _ => 0), seq(n, _ => 0), 0, [], [])
  }

  /** The vertices still WHITE; every visit removes at least one. */
  function Whites(color: seq<Color>): set<int> {
    set v | 0 <= v < |color| && color[v] == White
  }

  // ---------------------------------------------------------------------
  // Invariants of the traversal
  // ---------------------------------------------------------------------

  /** Discovered vertices carry a stamp in 1 .. time, finished ones a later
      finish stamp, also at most time. */
  ghost predicate Stamped(st: Search, n: nat)
    requires Sized(st, n)
  {
    && (forall v :: 0 <= v < n && st.color[v] != White ==> 1 <= st.d[v] <= st.time)
    && (forall v :: 0 <= v < n && st.color[v] == Black ==> st.d[v] < st.f[v] <= st.time)
  }

  /** The events of u and v so far (discovery, finish) got different clock
      values. */
  ghost predicate Apart(st: Search, u: int, v: int)
    requires |st.d| == |st.color| == |st.f| && 0 <= u < |st.color| && 0 <= v < |st.color|
  {
    && (u != v && st.color[u] != White && st.color[v] != White ==> st.d[u] != st.d[v])
    && (u != v && st.color[u] == Black && st.color[v] == Black ==> st.f[u] != st.f[v])
    && (st.color[u] != White && st.color[v] == Black ==> st.d[u] != st.f[v])
  }

  /** No two events got the same clock value. */
  ghost predicate StampsDistinct(st: Search, n: nat)
    requires Sized(st, n)
  {
    forall u, v {:trigger Apart(st, u, v)} :: 0 <= u < n && 0 <= v < n ==> Apart(st, u, v)
  }

  /** The GRAY vertices are exactly the active `DfsVisit` calls, `stack`,
      outermost first: a path of the graph, discovered in order, each linked
      to the previous one by its predecessor. */
  ghost predicate GrayChain(g: Matrix, st: Search, stack: seq<int>)
    requires Sized(st, |g|)
  {
    && (forall i :: 0 <= i < |stack| ==> 0 <= stack[i] < |g|)
    && (forall v :: 0 <= v < |g| ==> (st.color[v] == Gray <==> v in stack))
    && (forall i, j :: 0 <= i < j < |stack| ==> st.d[stack[i]] < st.d[stack[j]])
    && (forall i :: 0 < i < |stack| ==> Linked(st, stack, i))
    && IsPath(g, stack)
  }

  /** The call at position i of the chain was made by the one before it. */
  ghost predicate Linked(st: Search, stack: seq<int>, i: int)
    requires 0 < i < |stack| && 0 <= stack[i] < |st.pred|
  {
    st.pred[stack[i]] == stack[i - 1]
  }

  /** The run's log holds exactly the BLACK vertices, in increasing order of
      finish stamp (hence each one once). */
  ghost predicate FinishLog(st: Search, n: nat, base: nat)
    requires Sized(st, n)
  {
    && base <= |st.path|
    && (forall i :: base <= i < |st.path| ==> 0 <= st.path[i] < n)
    && (forall v :: 0 <= v < n ==> (st.color[v] == Black <==> v in st.path[base..]))
    && (forall i, j :: base <= i < j < |st.path| ==> st.f[st.path[i]] < st.f[st.path[j]])
  }

  /** The clock ticks once per discovery and once per finish. */
  ghost predicate Clocked(st: Search, stack: seq<int>, base: nat) {
    base <= |st.path| && st.time == 2 * (|st.path| - base) + |stack|
  }

  /** The [d, f] intervals of u and v are disjoint or one holds the other. */
  ghost predicate Parenthesized(st: Search, u: int, v: int)
    requires 0 <= u < |st.d| == |st.f| && 0 <= v < |st.d|
  {
    || st.f[u] < st.d[v]
    || st.f[v] < st.d[u]
    || (st.d[u] < st.d[v] && st.f[v] < st.f[u])
    || (st.d[v] < st.d[u] && st.f[u] < st.f[v])
  }

  /** Two finished intervals nest or are disjoint; a finished vertex v
      either ended before a GRAY u began or was discovered after it (and so
      will end inside it). */
  ghost predicate Nested(st: Search, u: int, v: int)
    requires |st.d| == |st.color| == |st.f| && 0 <= u < |st.color| && 0 <= v < |st.color|
  {
    && (u != v && st.color[u] == Black && st.color[v] == Black ==> Parenthesized(st, u, v))
    && (st.color[u] == Gray && st.color[v] == Black ==> st.f[v] < st.d[u] || st.d[u] < st.d[v])
  }

  /** All pairs of intervals so far are nested or disjoint. */
  ghost predicate Nesting(st: Search, n: nat)
    requires Sized(st, n)
  {
    forall u, v {:trigger Nested(st, u, v)} :: 0 <= u < n && 0 <= v < n ==> Nested(st, u, v)
  }

  /** A discovered vertex's predecessor is -1 or a discovered vertex with an
      edge to it, discovered earlier, and finished later. */
  ghost predicate PredTree(g: Matrix, st: Search)
    requires Sized(st, |g|)
  {
    forall v :: 0 <= v < |g| && st.color[v] != White && st.pred[v] != -1 ==>
      && 0 <= st.pred[v] < |g|
      && Edge(g, st.pred[v], v)
      && st.color[st.pred[v]] != White
      && st.d[st.pred[v]] < st.d[v]
      && (st.color[st.pred[v]] == Black ==> st.color[v] == Black && st.f[v] < st.f[st.pred[v]])
  }

  /** If u is finished, its out-neighbour v finished before it. */
  ghost predicate FinishedFirst(g: Matrix, st: Search, u: int, v: int)
    requires |st.color| == |st.f| && 0 <= u < |st.color| && 0 <= v < |st.color|
  {
    st.color[u] == Black && Edge(g, u, v) ==> st.color[v] == Black && st.f[v] < st.f[u]
  }

  /** In an acyclic graph every edge out of a finished vertex leads to a
      vertex that finished before it. */
  ghost predicate EdgesBackInTime(g: Matrix, st: Search)
    requires Sized(st, |g|)
  {
    Acyclic(g) ==>
      forall u, v {:trigger FinishedFirst(g, st, u, v)} :: 0 <= u < |g| && 0 <= v < |g| ==> FinishedFirst(g, st, u, v)
  }

  /** Everything that holds between two steps of a traversal whose active
      calls are `stack` and whose run started at log position `base`. */
  ghost predicate Inv(g: Matrix, st: Search, stack: seq<int>, base: nat) {
    && IsSquare(g)
    && Sized(st, |g|)
    && Stamped(st, |g|)
    && StampsDistinct(st, |g|)
    && GrayChain(g, st, stack)
    && FinishLog(st, |g|, base)
    && Clocked(st, stack, base)
    && Nesting(st, |g|)
    && PredTree(g, st)
    && EdgesBackInTime(g, st)
  }

  // ---------------------------------------------------------------------
  // The steps of dfsVisit
  // ---------------------------------------------------------------------

  /** Colour u GRAY, tick the clock and record it as u's discovery time. */
  function Discover(st: Search, u: int): Search
    requires 0 <= u < |st.color| && u < |st.d|
  {
    var st := st.(color := st.color[u := Gray]);
    var st := st.(time := st.time + 1);
    st.(d := st.d[u := st.time])
  }

  /** The `onVisit(u)` hook. */
  function OnVisit(st: Search, u: int, hook: Hook): Search {
    match hook
    case LogOnly => st.(path := st.path + [u])
    case LogAndPrepend => st.(path := st.path + [u], topo := [u] + st.topo)
  }

  /** Colour u BLACK, tick the clock, record it as u's finish time and run
      the hook. */
  function Finish(st: Search, u: int, hook: Hook): Search
    requires 0 <= u < |st.color| && u < |st.f|
  {
    var st := st.(color := st.color[u := Black]);
    var st := st.(time := st.time + 1);
    var st := st.(f := st.f[u := st.time]);
    OnVisit(st, u, hook)
  }

  /** How `DfsVisit(u)` may be entered: from the outer loop with an empty
      call chain and predecessor -1, or from the neighbour loop of the
      innermost active call, along an edge, with the predecessor set to it. */
  ghost predicate CalledFrom(g: Matrix, st: Search, stack: seq<int>, u: int)
    requires 0 <= u < |st.pred|
  {
    if stack == [] then st.pred[u] == -1
    else st.pred[u] == stack[|stack| - 1] && Edge(g, stack[|stack| - 1], u)
  }

  /** Discovering a WHITE vertex pushes it on the GRAY chain and keeps every
      invariant. */
  lemma DiscoverKeeps(g: Matrix, st: Search, stack: seq<int>, base: nat, u: int)
    requires Inv(g, st, stack, base)
    requires 0 <= u < |g| && st.color[u] == White
    requires CalledFrom(g, st, stack, u)
    ensures Inv(g, Discover(st, u), stack + [u], base)
  {
    var n := |g|;
    DiscoverStamps(st, n, u);
    DiscoverChain(g, st, stack, u);
    DiscoverLog(st, n, base, u);
    DiscoverNesting(st, n, u);
    DiscoverPred(g, st, stack, u);
    DiscoverEdges(g, st, u);
  }

  lemma DiscoverStamps(st: Search, n: nat, u: int)
    requires Sized(st, n) && Stamped(st, n) && StampsDistinct(st, n) && st.time >= 0
    requires 0 <= u < n && st.color[u] == White
    ensures Sized(Discover(st, u), n)
    ensures Stamped(Discover(st, u), n) && StampsDistinct(Discover(st, u), n)
  {
    var st' := Discover(st, u);
    forall x, y | 0 <= x < n && 0 <= y < n
      ensures Apart(st', x, y)
    {
      assert Apart(st, x, y);
    }
  }

  lemma DiscoverChain(g: Matrix, st: Search, stack: seq<int>, u: int)
    requires Sized(st, |g|) && Stamped(st, |g|) && GrayChain(g, st, stack)
    requires 0 <= u < |g| && st.color[u] == White
    requires CalledFrom(g, st, stack, u)
    ensures Sized(Discover(st, u), |g|)
    ensures GrayChain(g, Discover(st, u), stack + [u])
  {
    DiscoverChainOrder(g, st, stack, u);
    DiscoverChainLinks(g, st, stack, u);
  }

  /** The discovered vertex joins the chain as its latest-discovered member. */
  lemma DiscoverChainOrder(g: Matrix, st: Search, stack: seq<int>, u: int)
    requires Sized(st, |g|) && Stamped(st, |g|) && GrayChain(g, st, stack)
    requires 0 <= u < |g| && st.color[u] == White
    ensures var st', s' := Discover(st, u), stack + [u];
      && Sized(st', |g|)
      && (forall i :: 0 <= i < |s'| ==> 0 <= s'[i] < |g|)
      && (forall v :: 0 <= v < |g| ==> (st'.color[v] == Gray <==> v in s'))
      && (forall i, j :: 0 <= i < j < |s'| ==> st'.d[s'[i]] < st'.d[s'[j]])
  {
    var st' := Discover(st, u);
    var s' := stack + [u];
    assert st'.color == st.color[u := Gray] && st'.d == st.d[u := st.time + 1];
    forall i | 0 <= i < |stack|
      ensures s'[i] == stack[i] && st'.d[s'[i]] == st.d[stack[i]] && st'.d[s'[i]] <= st.time
    {
      assert stack[i] in stack;
    }
    forall v | 0 <= v < |g|
      ensures st'.color[v] == Gray <==> v in s'
    {
      assert v in s' <==> v in stack || v == u;
    }
  }

  /** The discovered vertex was called from the chain's last member. */
  lemma DiscoverChainLinks(g: Matrix, st: Search, stack: seq<int>, u: int)
    requires Sized(st, |g|) && GrayChain(g, st, stack)
    requires 0 <= u < |g| && st.color[u] == White
    requires CalledFrom(g, st, stack, u)
    ensures var st', s' := Discover(st, u), stack + [u];
      && Sized(st', |g|)
      && (forall i :: 0 < i < |s'| ==> Linked(st', s', i))
      && IsPath(g, s')
  {
    var st' := Discover(st, u);
    var s' := stack + [u];
    assert st'.pred == st.pred;
    forall i | 0 < i < |s'|
      ensures Linked(st', s', i)
    {
      if i < |stack| {
        assert Linked(st, stack, i);
      }
    }
    forall k | 0 <= k < |s'| - 1
      ensures Step(g, s', k)
    {
      if k < |stack| - 1 {
        assert Step(g, stack, k);
      }
    }
  }

  lemma DiscoverLog(st: Search, n: nat, base: nat, u: int)
    requires Sized(st, n) && FinishLog(st, n, base)
    requires 0 <= u < n && st.color[u] == White
    ensures Sized(Discover(st, u), n) && FinishLog(Discover(st, u), n, base)
  {
    var st' := Discover(st, u);
    assert st'.path == st.path;
    forall i, j | base <= i < j < |st.path|
      ensures st'.f[st'.path[i]] < st'.f[st'.path[j]]
    {
    }
  }

  lemma DiscoverNesting(st: Search, n: nat, u: int)
    requires Sized(st, n) && Stamped(st, n) && Nesting(st, n)
    requires 0 <= u < n && st.color[u] == White
    ensures Sized(Discover(st, u), n) && Nesting(Discover(st, u), n)
  {
    var st' := Discover(st, u);
    forall x, y | 0 <= x < n && 0 <= y < n
      ensures Nested(st', x, y)
    {
      assert Nested(st, x, y);
    }
  }

  lemma DiscoverPred(g: Matrix, st: Search, stack: seq<int>, u: int)
    requires Sized(st, |g|) && Stamped(st, |g|) && GrayChain(g, st, stack) && PredTree(g, st)
    requires 0 <= u < |g| && st.color[u] == White
    requires CalledFrom(g, st, stack, u)
    ensures Sized(Discover(st, u), |g|) && PredTree(g, Discover(st, u))
  {
    if stack != [] {
      assert stack[|stack| - 1] in stack;
    }
  }

  lemma DiscoverEdges(g: Matrix, st: Search, u: int)
    requires Sized(st, |g|) && EdgesBackInTime(g, st)
    requires 0 <= u < |g| && st.color[u] == White
    ensures Sized(Discover(st, u), |g|) && EdgesBackInTime(g, Discover(st, u))
  {
    var st' := Discover(st, u);
    if Acyclic(g) {
      forall x, y | 0 <= x < |g| && 0 <= y < |g|
        ensures FinishedFirst(g, st', x, y)
      {
        assert FinishedFirst(g, st, x, y);
      }
    }
  }

  /** Finishing the innermost active call, once (in an acyclic graph) all
      of its out-neighbours are BLACK, pops it off the GRAY chain and keeps
      every invariant. */
  lemma FinishKeeps(g: Matrix, st: Search, stack: seq<int>, base: nat, u: int, hook: Hook)
    requires Inv(g, st, stack + [u], base)
    requires 0 <= u < |g|
    requires Acyclic(g) ==> forall v :: 0 <= v < |g| && Edge(g, u, v) ==> st.color[v] == Black
    ensures Inv(g, Finish(st, u, hook), stack, base)
  {
    var n := |g|;
    var s := stack + [u];
    assert s[|s| - 1] == u;
    assert u in s;
    FinishFacts(st, n, u, hook);
    FinishStamps(st, n, u, hook);
    FinishChain(g, st, stack, u, hook);
    FinishLogKeeps(st, n, base, u, hook);
    FinishNesting(g, st, stack, u, hook);
    FinishPred(g, st, s, u, hook);
    assert st.color[u] == Gray;
    FinishEdges(g, st, u, hook);
  }

  /** What `Finish` changes. */
  lemma FinishFacts(st: Search, n: nat, u: int, hook: Hook)
    requires Sized(st, n) && 0 <= u < n
    ensures var st' := Finish(st, u, hook);
      && Sized(st', n)
      && st'.color == st.color[u := Black]
      && st'.f == st.f[u := st.time + 1]
      && st'.time == st.time + 1
      && st'.d == st.d && st'.pred == st.pred
      && st'.path == st.path + [u]
  {
  }

  lemma FinishStamps(st: Search, n: nat, u: int, hook: Hook)
    requires Sized(st, n) && Stamped(st, n) && StampsDistinct(st, n)
    requires 0 <= u < n && st.color[u] == Gray
    ensures Sized(Finish(st, u, hook), n)
    ensures Stamped(Finish(st, u, hook), n) && StampsDistinct(Finish(st, u, hook), n)
  {
    var st' := Finish(st, u, hook);
    FinishFacts(st, n, u, hook);
    forall x, y | 0 <= x < n && 0 <= y < n
      ensures Apart(st', x, y)
    {
      assert Apart(st, x, y);
    }
  }

  lemma FinishChain(g: Matrix, st: Search, stack: seq<int>, u: int, hook: Hook)
    requires Sized(st, |g|) && GrayChain(g, st, stack + [u])
    requires 0 <= u < |g|
    ensures Sized(Finish(st, u, hook), |g|)
    ensures GrayChain(g, Finish(st, u, hook), stack)
  {
    var st' := Finish(st, u, hook);
    var s := stack + [u];
    FinishFacts(st, |g|, u, hook);
    forall i | 0 <= i < |stack|
      ensures s[i] == stack[i] && st.d[stack[i]] < st.d[u]
    {
      assert s[|s| - 1] == u;
    }
    assert u !in stack;
    forall v | 0 <= v < |g|
      ensures st'.color[v] == Gray <==> v in stack
    {
      assert v in s <==> v in stack || v == u;
    }
    forall i | 0 < i < |stack|
      ensures Linked(st', stack, i)
    {
      assert Linked(st, s, i);
    }
    forall k | 0 <= k < |stack| - 1
      ensures Step(g, stack, k)
    {
      assert Step(g, s, k);
    }
  }

  lemma FinishLogKeeps(st: Search, n: nat, base: nat, u: int, hook: Hook)
    requires Sized(st, n) && Stamped(st, n) && FinishLog(st, n, base)
    requires 0 <= u < n && st.color[u] == Gray
    ensures Sized(Finish(st, u, hook), n) && FinishLog(Finish(st, u, hook), n, base)
  {
    var st' := Finish(st, u, hook);
    FinishFacts(st, n, u, hook);
    assert st'.path[base..] == st.path[base..] + [u];
    forall v | 0 <= v < n
      ensures st'.color[v] == Black <==> v in st'.path[base..]
    {
    }
    forall i, j | base <= i < j < |st'.path|
      ensures st'.f[st'.path[i]] < st'.f[st'.path[j]]
    {
      assert st.path[i] in st.path[base..];
      if j < |st.path| {
        assert st.path[j] in st.path[base..];
      }
    }
  }

  lemma FinishNesting(g: Matrix, st: Search, stack: seq<int>, u: int, hook: Hook)
    requires Sized(st, |g|) && Stamped(st, |g|) && Nesting(st, |g|) && GrayChain(g, st, stack + [u])
    requires 0 <= u < |g|
    ensures Sized(Finish(st, u, hook), |g|) && Nesting(Finish(st, u, hook), |g|)
  {
    var s := stack + [u];
    var st' := Finish(st, u, hook);
    assert s[|s| - 1] == u && u in s;
    FinishFacts(st, |g|, u, hook);
    GrayBefore(g, st, s);
    forall x, y | 0 <= x < |g| && 0 <= y < |g|
      ensures Nested(st', x, y)
    {
      assert Nested(st, x, y) && Nested(st, y, x);
    }
  }

  /** Along the GRAY chain, every member was discovered no later than the
      innermost one. */
  lemma GrayBefore(g: Matrix, st: Search, s: seq<int>)
    requires Sized(st, |g|) && GrayChain(g, st, s) && |s| > 0
    ensures forall x :: 0 <= x < |g| && st.color[x] == Gray ==> st.d[x] <= st.d[s[|s| - 1]]
  {
    forall x | 0 <= x < |g| && st.color[x] == Gray
      ensures st.d[x] <= st.d[s[|s| - 1]]
    {
      assert x in s;
      var i :| 0 <= i < |s| && s[i] == x;
      if i < |s| - 1 {
        assert st.d[s[i]] < st.d[s[|s| - 1]];
      }
    }
  }

  lemma FinishPred(g: Matrix, st: Search, s: seq<int>, u: int, hook: Hook)
    requires Sized(st, |g|) && Stamped(st, |g|) && PredTree(g, st) && GrayChain(g, st, s)
    requires 0 <= u < |g| && |s| > 0 && s[|s| - 1] == u
    ensures Sized(Finish(st, u, hook), |g|) && PredTree(g, Finish(st, u, hook))
  {
    FinishFacts(st, |g|, u, hook);
    GrayBefore(g, st, s);
  }

  lemma FinishEdges(g: Matrix, st: Search, u: int, hook: Hook)
    requires Sized(st, |g|) && Stamped(st, |g|) && EdgesBackInTime(g, st)
    requires 0 <= u < |g| && st.color[u] == Gray
    requires Acyclic(g) ==> forall v :: 0 <= v < |g| && Edge(g, u, v) ==> st.color[v] == Black
    ensures Sized(Finish(st, u, hook), |g|) && EdgesBackInTime(g, Finish(st, u, hook))
  {
    var st' := Finish(st, u, hook);
    FinishFacts(st, |g|, u, hook);
    if Acyclic(g) {
      forall x, v | 0 <= x < |g| && 0 <= v < |g|
        ensures FinishedFirst(g, st', x, v)
      {
        assert FinishedFirst(g, st, x, v);
      }
    }
  }

  /** The vertices that were not WHITE at `st0` keep their colour, stamps
      and predecessor in `st`, and the vertices WHITE at `st` were WHITE,
      with the same predecessor, at `st0`. */
  ghost predicate Frame(g: Matrix, st0: Search, st: Search)
    requires Sized(st0, |g|) && Sized(st, |g|)
  {
    && (forall x :: 0 <= x < |g| && st0.color[x] != White ==>
          && st.color[x] == st0.color[x]
          && st.d[x] == st0.d[x]
          && st.pred[x] == st0.pred[x]
          && st.f[x] == st0.f[x])
    && (forall x :: 0 <= x < |g| && st.color[x] == White ==>
          st0.color[x] == White && st.pred[x] == st0.pred[x])
  }

  /** `st` extends the logs of `st0`: the finish log by appending, the
      topological list (for the sorting hook) by prepending the same
      vertices in reverse. */
  ghost predicate Extends(st0: Search, st: Search, hook: Hook) {
    && |st0.path| <= |st.path|
    && st.path[..|st0.path|] == st0.path
    && (hook == LogOnly ==> st.topo == st0.topo)
    && (hook == LogAndPrepend ==> st.topo == Reverse(st.path[|st0.path|..]) + st0.topo)
  }

  lemma ExtendsTrans(st0: Search, st1: Search, st2: Search, hook: Hook)
    requires Extends(st0, st1, hook) && Extends(st1, st2, hook)
    ensures Extends(st0, st2, hook)
  {
    PrefixTrans(st0.path, st1.path, st2.path);
    if hook == LogAndPrepend {
      PrependReverseTrans(st0.path, st1.path, st2.path, st0.topo, st1.topo, st2.topo);
    }
  }

  // ---------------------------------------------------------------------
  // The traversal
  // ---------------------------------------------------------------------

  /** What a completed `DfsVisit(u)` started at `st0` guarantees of its
      result `st` besides the invariants: the vertices it did not discover
      are as they were; the logs were extended by the vertices it finished,
      u last; u is BLACK with stamps `st0.time + 1` and the final clock;
      every other vertex it discovered is BLACK with an interval strictly
      inside u's; no out-neighbour of u is left WHITE; and in an acyclic
      graph every out-neighbour of u finished before u. */
  ghost predicate Done(g: Matrix, st0: Search, st: Search, u: int, hook: Hook) {
    && Sized(st0, |g|) && Sized(st, |g|) && 0 <= u < |g|
    && Frame(g, st0, st)
    && Extends(st0, st, hook)
    && st.color[u] == Black && st.d[u] == st0.time + 1 < st.f[u] == st.time
    && |st.path| > |st0.path| && st.path[|st.path| - 1] == u
    && (forall x :: 0 <= x < |g| && x != u && st0.color[x] == White && st.color[x] != White ==>
          st.color[x] == Black && st.d[u] < st.d[x] && st.f[x] < st.f[u])
    && (forall v :: 0 <= v < |g| && Edge(g, u, v) ==> st.color[v] != White)
    && (Acyclic(g) ==> forall v :: 0 <= v < |g| && Edge(g, u, v) ==> st.f[v] < st.f[u])
  }

  /** The progress of `DfsVisit(u)`, started at `st0`, when its neighbour
      loop has looked at columns 0 .. v-1: u is GRAY, what u discovered so
      far is finished and was discovered after u, and none of the
      out-neighbours looked at is WHITE (in an acyclic graph, all are
      BLACK). */
  ghost predicate Progress(g: Matrix, st0: Search, st: Search, u: int, v: int, hook: Hook) {
    && Sized(st0, |g|) && Sized(st, |g|) && 0 <= u < |g| && st0.color[u] == White
    && 0 <= v <= |g|
    && Frame(g, st0, st)
    && Extends(st0, st, hook)
    && st.color[u] == Gray && st.d[u] == st0.time + 1 && st.time > st0.time
    && (forall x :: 0 <= x < |g| && x != u && st0.color[x] == White && st.color[x] != White ==>
          st.color[x] == Black && st.d[u] < st.d[x])
    && (forall w :: 0 <= w < v && Edge(g, u, w) ==> st.color[w] != White)
    && (Acyclic(g) ==> forall w :: 0 <= w < v && Edge(g, u, w) ==> st.color[w] == Black)
  }

  lemma ScanStart(g: Matrix, st0: Search, u: int, hook: Hook)
    requires Sized(st0, |g|) && 0 <= u < |g| && st0.color[u] == White
    ensures Progress(g, st0, Discover(st0, u), u, 0, hook)
  {
  }

  /** Recording u as the predecessor of a WHITE vertex v keeps the
      invariants and makes v callable from u. */
  lemma SetPredKeeps(g: Matrix, st: Search, chain: seq<int>, base: nat, u: int, v: int)
    requires Inv(g, st, chain, base)
    requires |chain| > 0 && chain[|chain| - 1] == u
    requires 0 <= v < |g| && Edge(g, u, v) && st.color[v] == White
    ensures Inv(g, st.(pred := st.pred[v := u]), chain, base)
    ensures CalledFrom(g, st.(pred := st.pred[v := u]), chain, v)
  {
    var st1 := st.(pred := st.pred[v := u]);
    SetPredChain(g, st, chain, u, v);
    SetPredTree(g, st, u, v);
    SetPredStamps(st, |g|, u, v);
    SetPredRest(g, st, base, u, v);
  }

  lemma SetPredStamps(st: Search, n: nat, u: int, v: int)
    requires Sized(st, n) && Stamped(st, n) && StampsDistinct(st, n)
    requires 0 <= v < n
    ensures Sized(st.(pred := st.pred[v := u]), n)
    ensures Stamped(st.(pred := st.pred[v := u]), n) && StampsDistinct(st.(pred := st.pred[v := u]), n)
  {
    var st1 := st.(pred := st.pred[v := u]);
    forall x, y | 0 <= x < n && 0 <= y < n
      ensures Apart(st1, x, y)
    {
      assert Apart(st, x, y);
    }
  }

  lemma SetPredRest(g: Matrix, st: Search, base: nat, u: int, v: int)
    requires Sized(st, |g|) && FinishLog(st, |g|, base) && Nesting(st, |g|) && EdgesBackInTime(g, st)
    requires 0 <= v < |g|
    ensures Sized(st.(pred := st.pred[v := u]), |g|)
    ensures FinishLog(st.(pred := st.pred[v := u]), |g|, base)
    ensures Nesting(st.(pred := st.pred[v := u]), |g|)
    ensures EdgesBackInTime(g, st.(pred := st.pred[v := u]))
  {
    var st1 := st.(pred := st.pred[v := u]);
    forall x, y | 0 <= x < |g| && 0 <= y < |g|
      ensures Nested(st1, x, y)
    {
      assert Nested(st, x, y);
    }
    if Acyclic(g) {
      forall x, y | 0 <= x < |g| && 0 <= y < |g|
        ensures FinishedFirst(g, st1, x, y)
      {
        assert FinishedFirst(g, st, x, y);
      }
    }
  }

  lemma SetPredChain(g: Matrix, st: Search, chain: seq<int>, u: int, v: int)
    requires Sized(st, |g|) && GrayChain(g, st, chain)
    requires 0 <= v < |g| && st.color[v] == White
    ensures Sized(st.(pred := st.pred[v := u]), |g|)
    ensures GrayChain(g, st.(pred := st.pred[v := u]), chain)
  {
    var st1 := st.(pred := st.pred[v := u]);
    forall i | 0 < i < |chain|
      ensures Linked(st1, chain, i)
    {
      assert Linked(st, chain, i);
      assert chain[i] in chain;
    }
  }

  lemma SetPredTree(g: Matrix, st: Search, u: int, v: int)
    requires Sized(st, |g|) && PredTree(g, st)
    requires 0 <= v < |g| && st.color[v] == White
    ensures Sized(st.(pred := st.pred[v := u]), |g|)
    ensures PredTree(g, st.(pred := st.pred[v := u]))
  {
  }

  /** A visit in progress has fewer WHITE vertices than at its start. */
  lemma WhitesShrink(g: Matrix, st0: Search, st: Search, u: int)
    requires Sized(st0, |g|) && Sized(st, |g|) && Frame(g, st0, st)
    requires 0 <= u < |g| && st0.color[u] == White && st.color[u] != White
    ensures Whites(st.color) < Whites(st0.color)
  {
    assert u in Whites(st0.color) && u !in Whites(st.color);
  }

  /** Visiting a WHITE out-neighbour v of u advances the scan of u. */
  lemma ScanWhite(g: Matrix, st0: Search, st: Search, st1: Search, st2: Search, u: int, v: int, hook: Hook)
    requires Progress(g, st0, st, u, v, hook)
    requires st.d[u] <= st.time
    requires v < |g| && Edge(g, u, v) && st.color[v] == White
    requires st1 == st.(pred := st.pred[v := u])
    requires Done(g, st1, st2, v, hook)
    ensures Progress(g, st0, st2, u, v + 1, hook)
  {
    assert Extends(st, st1, hook);
    ExtendsTrans(st0, st, st1, hook);
    ExtendsTrans(st0, st1, st2, hook);
    assert Frame(g, st0, st2);
  }

  /** Passing over a column that is not a WHITE out-neighbour advances the
      scan; a GRAY out-neighbour is on the chain of active calls, so the
      graph has a cycle. */
  lemma ScanSkip(g: Matrix, st0: Search, st: Search, chain: seq<int>, u: int, v: int, hook: Hook)
    requires Progress(g, st0, st, u, v, hook) && GrayChain(g, st, chain)
    requires |chain| > 0 && chain[|chain| - 1] == u
    requires v < |g| && !(Edge(g, u, v) && st.color[v] == White)
    ensures Progress(g, st0, st, u, v + 1, hook)
  {
    if Edge(g, u, v) && st.color[v] == Gray {
      BackEdgeCloses(g, chain, v);
    }
  }

  /** Finishing u once every column was looked at completes the visit. */
  lemma ScanEnd(g: Matrix, st0: Search, st: Search, u: int, hook: Hook)
    requires Progress(g, st0, st, u, |g|, hook) && Stamped(st, |g|)
    ensures Done(g, st0, Finish(st, u, hook), u, hook)
  {
    var st' := Finish(st, u, hook);
    FinishFacts(st, |g|, u, hook);
    assert Extends(st, st', hook);
    ExtendsTrans(st0, st, st', hook);
  }

  /** `dfsVisit(u)`: discover u, look at every column v of u's row in
      ascending order, then finish u and run the hook. `stack` is the chain
      of active calls, `base` the length the finish log had when `Dfs`
      started. */
  method DfsVisit(g: Matrix, st0: Search, u: int, hook: Hook, ghost stack: seq<int>, ghost base: nat)
    returns (st: Search)
    requires Inv(g, st0, stack, base)
    requires 0 <= u < |g| && st0.color[u] == White
    requires CalledFrom(g, st0, stack, u)
    decreases Whites(st0.color), 1
    ensures Inv(g, st, stack, base)
    ensures Done(g, st0, st, u, hook)
  {
    DiscoverKeeps(g, st0, stack, base, u);
    ScanStart(g, st0, u, hook);
    st := Discover(st0, u);
    var v := 0;
    while v < |g[u]|
      invariant Inv(g, st, stack + [u], base)
      invariant Progress(g, st0, st, u, v, hook)
    {
      st := Explore(g, st0, st, u, v, hook, stack, base);
      v := v + 1;
    }
    FinishKeeps(g, st, stack, base, u, hook);
    ScanEnd(g, st0, st, u, hook);
    st := Finish(st, u, hook);
  }

  /** One turn of the neighbour loop of `dfsVisit(u)`: if v is a WHITE
      out-neighbour of u, record u as its predecessor and visit it;
      otherwise (no edge, or v already GRAY or BLACK) do nothing. */
  method Explore(g: Matrix, ghost st0: Search, st: Search, u: int, v: int, hook: Hook,
                 ghost stack: seq<int>, ghost base: nat)
    returns (st': Search)
    requires Inv(g, st, stack + [u], base)
    requires Progress(g, st0, st, u, v, hook) && v < |g|
    decreases Whites(st0.color), 0
    ensures Inv(g, st', stack + [u], base)
    ensures Progress(g, st0, st', u, v + 1, hook)
  {
    ghost var chain := stack + [u];
    assert chain[|chain| - 1] == u;
    if g[u][v] != 0 && st.color[v] == White {
      SetPredKeeps(g, st, chain, base, u, v);
      WhitesShrink(g, st0, st, u);
      var called := st.(pred := st.pred[v := u]);
      st' := DfsVisit(g, called, v, hook, chain, base);
      ScanWhite(g, st0, st, called, st', u, v, hook);
    } else {
      ScanSkip(g, st0, st, chain, u, v, hook);
      st' := st;
    }
  }

  /** The state `dfs()` starts the outer loop from: every vertex WHITE with
      predecessor -1 and the clock at 0. The stamps and both logs are kept
      from before. */
  function Reset(obj: Search): Search {
    var n := |obj.color|;
    obj.(color := seq(n, _ => White), pred := seq(n, _ => -1), time := 0)
  }

  /** After the reset nothing is discovered yet, so the invariants hold with
      no active call and the run starting at the current end of the log. */
  lemma ResetInv(g: Matrix, obj: Search)
    requires IsSquare(g) && Sized(obj, |g|)
    ensures Inv(g, Reset(obj), [], |obj.path|)
  {
    var st := Reset(obj);
    assert forall v :: 0 <= v < |g| ==> st.color[v] == White;
    assert st.path[|obj.path|..] == [];
  }

  /** The outer loop of `dfs()` after looking at vertices 0 .. u-1: they
      are all BLACK, the vertices still WHITE have predecessor -1, and the
      logs extend those of the object. */
  ghost predicate Outer(g: Matrix, obj: Search, st: Search, u: int, hook: Hook) {
    && Sized(st, |g|)
    && 0 <= u <= |g|
    && Extends(obj, st, hook)
    && (forall w :: 0 <= w < u ==> st.color[w] == Black)
    && (forall w :: 0 <= w < |g| && st.color[w] == White ==> st.pred[w] == -1)
  }

  /** A root visit from the outer loop advances it. */
  lemma OuterVisit(g: Matrix, obj: Search, st: Search, st': Search, u: int, hook: Hook)
    requires Outer(g, obj, st, u, hook) && u < |g| && st.color[u] == White
    requires Done(g, st, st', u, hook)
    requires forall v :: 0 <= v < |g| ==> st'.color[v] != Gray
    ensures Outer(g, obj, st', u + 1, hook)
  {
    ExtendsTrans(obj, st, st', hook);
  }

  /** Once every vertex is BLACK and no call is active, the run's log is a
      permutation of the vertices and the clock reads 2n. */
  lemma AllFinished(g: Matrix, st: Search, base: nat)
    requires Inv(g, st, [], base)
    requires forall v :: 0 <= v < |g| ==> st.color[v] == Black
    ensures |st.path| == base + |g|
    ensures st.time == 2 * |g|
    ensures Distinct(st.path[base..])
  {
    var run := st.path[base..];
    assert forall i :: 0 <= i < |run| ==> run[i] == st.path[base + i];
    assert Distinct(run) by {
      forall i, j | 0 <= i < j < |run|
        ensures run[i] != run[j]
      {
        assert st.f[st.path[base + i]] < st.f[st.path[base + j]];
      }
    }
    CoveringLength(run, |g|);
  }

  /** What a whole traversal establishes about its final state `st`, given
      the object `obj` it started from: every vertex is BLACK; the clock
      reads 2n; 1 <= d < f <= 2n for every vertex, all 2n stamps distinct;
      any two intervals are disjoint or nested; the predecessors form a
      tree along edges; the run appended to the finish log is a permutation
      of the vertices in increasing finish order; the sorting hook
      prepended that run reversed (the plain hook left the list alone); and
      in an acyclic graph every edge goes from a later to an earlier
      finish. */
  ghost predicate Traversed(g: Matrix, obj: Search, st: Search, hook: Hook) {
    && Sized(st, |g|)
    && (forall v :: 0 <= v < |g| ==> st.color[v] == Black)
    && st.time == 2 * |g|
    && (forall v :: 0 <= v < |g| ==> 1 <= st.d[v] < st.f[v] <= 2 * |g|)
    && StampsDistinct(st, |g|)
    && (forall u, v :: 0 <= u < |g| && 0 <= v < |g| && u != v ==> Parenthesized(st, u, v))
    && PredTree(g, st)
    && |st.path| == |obj.path| + |g| && st.path[..|obj.path|] == obj.path
    && (forall i :: |obj.path| <= i < |st.path| ==> 0 <= st.path[i] < |g|)
    && (forall v :: 0 <= v < |g| ==> v in st.path[|obj.path|..])
    && Distinct(st.path[|obj.path|..])
    && (forall i, j :: |obj.path| <= i < j < |st.path| ==> st.f[st.path[i]] < st.f[st.path[j]])
    && (hook == LogOnly ==> st.topo == obj.topo)
    && (hook == LogAndPrepend ==> st.topo == Reverse(st.path[|obj.path|..]) + obj.topo)
    && (Acyclic(g) ==> forall u, v :: 0 <= u < |g| && 0 <= v < |g| && Edge(g, u, v) ==> st.f[v] < st.f[u])
  }

  /** The invariants with no active call and every vertex looked at by the
      outer loop give everything `Traversed` promises. */
  lemma Completed(g: Matrix, obj: Search, st: Search, hook: Hook)
    requires Inv(g, st, [], |obj.path|)
    requires Outer(g, obj, st, |g|, hook)
    ensures Traversed(g, obj, st, hook)
  {
    AllFinished(g, st, |obj.path|);
    forall u, v | 0 <= u < |g| && 0 <= v < |g| && u != v
      ensures Parenthesized(st, u, v)
    {
      assert Nested(st, u, v);
    }
    if Acyclic(g) {
      forall u, v | 0 <= u < |g| && 0 <= v < |g| && Edge(g, u, v)
        ensures st.f[v] < st.f[u]
      {
        assert FinishedFirst(g, st, u, v);
      }
    }
  }

  /** `dfs()`: reset colours, predecessors and the clock, then call
      `DfsVisit` on every vertex still WHITE, in ascending order. */
  method Dfs(g: Matrix, obj: Search, hook: Hook) returns (st: Search)
    requires IsSquare(g) && Sized(obj, |g|)
    ensures Traversed(g, obj, st, hook)
  {
    ghost var base := |obj.path|;
    ResetInv(g, obj);
    st := Reset(obj);
    assert Extends(obj, st, hook) by {
      assert st.path[base..] == [];
    }
    var u := 0;
    while u < |g|
      invariant Inv(g, st, [], base)
      invariant Outer(g, obj, st, u, hook)
    {
      if st.color[u] == White {
        ghost var before := st;
        st := DfsVisit(g, st, u, hook, [], base);
        OuterVisit(g, obj, before, st, u, hook);
      }
      u := u + 1;
    }
    Completed(g, obj, st, hook);
  }
}
