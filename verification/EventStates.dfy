/** The states that the tables pass through, event by event. In an acyclic graph no entry of any of
    them exceeds its final value, so the bound on the result is a bound on the whole run. */
module EventStates {
  import opened Graphs
  import opened DepthFirst
  import opened SearchTheory
  import opened WholeSearch
  import opened AcyclicNpath

  /** t occurs while the white vertex u is explored from s. */
  ghost predicate InVertex(g: Graph, s: Search, u: nat, t: Search)
    requires WellFormed(g) && Fits(g, s)
    requires u < |g| && s.color[u].White?
    decreases Whites(s), 0
  {
    var s2 := Discover(s, u);
    assert Whites(s2) == Whites(s) - {u} && u in Whites(s);
    var e := Blacken(VisitEdges(g, s2, u, 0), u);
    t == s2 || InEdges(g, s2, u, 0, t) || t == e || t == Settle(e, u) || t == VisitVertex(g, s, u)
  }

  /** t occurs while the out-edges of u from the i-th on are examined. */
  ghost predicate InEdges(g: Graph, s: Search, u: nat, i: nat, t: Search)
    requires WellFormed(g) && Fits(g, s)
    requires u < |g| && i <= |g[u]|
    decreases Whites(s), 1 + |g[u]| - i
  {
    i < |g[u]| && (InEdge(g, s, u, g[u][i], t) || InEdges(g, VisitEdge(g, s, u, g[u][i]), u, i + 1, t))
  }

  ghost predicate InEdge(g: Graph, s: Search, u: nat, v: nat, t: Search)
    requires WellFormed(g) && Fits(g, s)
    requires u < |g| && v < |g|
    decreases Whites(s), 1
  {
    t == VisitEdge(g, s, u, v)
    || (s.color[v].White? &&
        (assert Whites(TreeEdge(s, u, v)) == Whites(s);
         t == TreeEdge(s, u, v) || InVertex(g, TreeEdge(s, u, v), v, t)))
  }

  ghost predicate InRoots(g: Graph, s: Search, k: nat, t: Search)
    requires WellFormed(g) && Fits(g, s) && k <= |g|
    decreases |g| - k
  {
    t == s
    || (k < |g| && s.color[k].White? && InVertex(g, s, k, t))
    || (k < |g| && InRoots(g, if s.color[k].White? then VisitVertex(g, s, k) else s, k + 1, t))
  }

  /** t occurs in the search of g. */
  ghost predicate InRun(g: Graph, t: Search)
    requires WellFormed(g)
  {
    InRoots(g, Start(|g|), 0, t)
  }

  // ---------- entries only grow

  lemma {:induction false} VertexStateGrows(g: Graph, s: Search, v: nat, t: Search)
    requires WellFormed(g) && Acyclic(g) && Fits(g, s) && v < |g| && s.color[v].White?
    requires Tidy(g, Discover(s, v)) && AllReach(g, Discover(s, v), v) && !Discover(s, v).color[0].White?
    requires InVertex(g, s, v, t)
    ensures Grows(t, VisitVertex(g, s, v))
    decreases Whites(s), 0
  {
    var s2 := Discover(s, v);
    assert Whites(s2) == Whites(s) - {v} && v in Whites(s);
    var e := VisitEdges(g, s2, v, 0);
    EdgesGrow(g, s2, v, 0);
    if InEdges(g, s2, v, 0, t) {
      EdgesStateGrows(g, s2, v, 0, t);
    }
    assert Grows(e, Settle(Blacken(e, v), v));
  }

  lemma {:induction false} EdgesStateGrows(g: Graph, s: Search, u: nat, i: nat, t: Search)
    requires WellFormed(g) && Acyclic(g) && Tidy(g, s) && u < |g| && i <= |g[u]|
    requires s.color[u].Grey? && !s.color[0].White? && AllReach(g, s, u)
    requires InEdges(g, s, u, i, t)
    ensures Grows(t, VisitEdges(g, s, u, i))
    decreases Whites(s), 1 + |g[u]| - i
  {
    var m := VisitEdge(g, s, u, g[u][i]);
    EdgeFrame(g, s, u, g[u][i]);
    if InEdge(g, s, u, g[u][i], t) {
      EdgeStateGrows(g, s, u, g[u][i], t);
      EdgesGrow(g, m, u, i + 1);
    } else {
      EdgesStateGrows(g, m, u, i + 1, t);
    }
  }

  lemma {:induction false} EdgeStateGrows(g: Graph, s: Search, u: nat, v: nat, t: Search)
    requires WellFormed(g) && Acyclic(g) && Tidy(g, s) && u < |g| && v in g[u] && v < |g|
    requires s.color[u].Grey? && !s.color[0].White? && AllReach(g, s, u)
    requires InEdge(g, s, u, v, t)
    ensures Grows(t, VisitEdge(g, s, u, v))
    decreases Whites(s), 1
  {
    EdgeGrows(g, s, u, v);
    if s.color[v].White? {
      var s1 := TreeEdge(s, u, v);
      assert Whites(s1) == Whites(s);
      if InVertex(g, s1, v, t) {
        GreyPathGrows(g, Discover(s1, v), u, v);
        VertexStateGrows(g, s1, v, t);
      }
    }
  }

  lemma RootStateGrows(g: Graph, s: Search, u: nat, t: Search)
    requires WellFormed(g) && Acyclic(g) && Idle(g, s) && u < |g| && s.color[u].White?
    requires u == 0 || s.color[0].Black?
    requires InVertex(g, s, u, t)
    ensures Grows(t, VisitVertex(g, s, u))
  {
    ReachesSelf(g, u);
    VertexStateGrows(g, s, u, t);
  }

  lemma {:induction false} RootsStateGrows(g: Graph, s: Search, k: nat, t: Search)
    requires WellFormed(g) && Acyclic(g) && Idle(g, s) && k <= |g| && Below(s.order, |g|)
    requires forall x :: 0 <= x < k ==> s.color[x].Black?
    requires InRoots(g, s, k, t)
    ensures Grows(t, VisitRoots(g, s, k))
    decreases |g| - k
  {
    if t == s {
      RootsGrow(g, s, k);
    } else if s.color[k].White? {
      WhiteStateGrows(g, s, k, t);
    } else {
      RootsStateGrows(g, s, k + 1, t);
    }
  }

  lemma {:induction false} WhiteStateGrows(g: Graph, s: Search, k: nat, t: Search)
    requires WellFormed(g) && Acyclic(g) && Idle(g, s) && k < |g| && Below(s.order, |g|) && s.color[k].White?
    requires forall x :: 0 <= x < k ==> s.color[x].Black?
    requires InVertex(g, s, k, t) || InRoots(g, VisitVertex(g, s, k), k + 1, t)
    ensures Grows(t, VisitRoots(g, s, k))
    decreases |g| - k, 0
  {
    var m := VisitVertex(g, s, k);
    assert Idle(g, m) && Below(m.order, |g|) && forall x :: 0 <= x < k + 1 ==> m.color[x].Black? by {
      RootCounted(g, s, k);
    }
    if InVertex(g, s, k, t) {
      RootStateGrows(g, s, k, t);
      RootsGrow(g, m, k + 1);
    } else {
      RootsStateGrows(g, m, k + 1, t);
    }
  }

  lemma NoValueAboveResult(g: Graph, t: Search)
    requires WellFormed(g) && Acyclic(g) && InRun(g, t)
    ensures Grows(t, Run(g))
  {
    StartIdle(g);
    RootsStateGrows(g, Start(|g|), 0, t);
  }

  /** In an acyclic graph of n >= 2 blocks every entry, at every event of the search, is at most its
      final value, and at most 2^(n-2). */
  lemma {:induction false} EveryValueBounded(g: Graph, t: Search, x: nat)
    requires WellFormed(g) && Acyclic(g) && |g| >= 2 && x < |g| && InRun(g, t)
    ensures |t.complexity| == |g| && t.complexity[x] <= Run(g).complexity[x] <= Pow2(|g| - 2)
  {
    NoValueAboveResult(g, t);
    NpathBound(g, x);
  }

  /** CountType is a 64-bit signed integer: up to 64 blocks no entry reaches 2^63 at any event. */
  lemma NoOverflowUpTo64(g: Graph, t: Search, x: nat)
    requires WellFormed(g) && Acyclic(g) && x < |g| <= 64 && InRun(g, t)
    ensures |t.complexity| == |g| && t.complexity[x] < 0x8000_0000_0000_0000
  {
    NoValueAboveResult(g, t);
    NpathWithin64(g, x);
    Pow2At62();
  }

  /** The result is one of these states. */
  lemma {:induction false} ResultOccurs(g: Graph, s: Search, k: nat)
    requires WellFormed(g) && Fits(g, s) && k <= |g|
    ensures InRoots(g, s, k, VisitRoots(g, s, k))
    decreases |g| - k
  {
    if k < |g| {
      ResultOccurs(g, if s.color[k].White? then VisitVertex(g, s, k) else s, k + 1);
    }
  }

  // ---------- no event is left out

  /** The edges classified so far, or the vertices finished. */
  function Events(s: Search, edges: bool): nat {
    if edges then s.edges else s.vertices
  }

  lemma {:induction false} VertexCountsUp(g: Graph, s: Search, u: nat, b: bool, j: nat)
    requires WellFormed(g) && Fits(g, s) && u < |g| && s.color[u].White?
    requires Events(s, b) <= j <= Events(VisitVertex(g, s, u), b)
    ensures exists t :: InVertex(g, s, u, t) && Events(t, b) == j
    decreases Whites(s), 0
  {
    var s2 := Discover(s, u);
    assert Whites(s2) == Whites(s) - {u} && u in Whites(s);
    var e := Blacken(VisitEdges(g, s2, u, 0), u);
    if j == Events(s, b) {
      assert InVertex(g, s, u, s2);
    } else if j <= Events(e, b) {
      EdgesCountUp(g, s2, u, 0, b, j);
      var t :| InEdges(g, s2, u, 0, t) && Events(t, b) == j;
      assert InVertex(g, s, u, t);
    } else {
      assert InVertex(g, s, u, Settle(e, u));
    }
  }

  lemma {:induction false} EdgesCountUp(g: Graph, s: Search, u: nat, i: nat, b: bool, j: nat)
    requires WellFormed(g) && Fits(g, s) && u < |g| && i <= |g[u]|
    requires Events(s, b) < j <= Events(VisitEdges(g, s, u, i), b)
    ensures exists t :: InEdges(g, s, u, i, t) && Events(t, b) == j
    decreases Whites(s), 1 + |g[u]| - i
  {
    var m := VisitEdge(g, s, u, g[u][i]);
    if j <= Events(m, b) {
      EdgeCountsUp(g, s, u, g[u][i], b, j);
      var t :| InEdge(g, s, u, g[u][i], t) && Events(t, b) == j;
      assert InEdges(g, s, u, i, t);
    } else {
      EdgesCountUp(g, m, u, i + 1, b, j);
      var t :| InEdges(g, m, u, i + 1, t) && Events(t, b) == j;
      assert InEdges(g, s, u, i, t);
    }
  }

  lemma {:induction false} EdgeCountsUp(g: Graph, s: Search, u: nat, v: nat, b: bool, j: nat)
    requires WellFormed(g) && Fits(g, s) && u < |g| && v < |g|
    requires Events(s, b) < j <= Events(VisitEdge(g, s, u, v), b)
    ensures exists t :: InEdge(g, s, u, v, t) && Events(t, b) == j
    decreases Whites(s), 1
  {
    if s.color[v].White? {
      var s1 := TreeEdge(s, u, v);
      assert Whites(s1) == Whites(s);
      VertexCountsUp(g, s1, v, b, j);
      var t :| InVertex(g, s1, v, t) && Events(t, b) == j;
      assert InEdge(g, s, u, v, t);
    } else {
      assert InEdge(g, s, u, v, VisitEdge(g, s, u, v));
    }
  }

  lemma {:induction false} RootsCountUp(g: Graph, s: Search, k: nat, b: bool, j: nat)
    requires WellFormed(g) && Fits(g, s) && k <= |g|
    requires Events(s, b) <= j <= Events(VisitRoots(g, s, k), b)
    ensures exists t :: InRoots(g, s, k, t) && Events(t, b) == j
    decreases |g| - k
  {
    if j == Events(s, b) {
      assert InRoots(g, s, k, s);
    } else {
      var m := if s.color[k].White? then VisitVertex(g, s, k) else s;
      if j <= Events(m, b) {
        VertexCountsUp(g, s, k, b, j);
        var t :| InVertex(g, s, k, t) && Events(t, b) == j;
        assert InRoots(g, s, k, t);
      } else {
        RootsCountUp(g, m, k + 1, b, j);
        var t :| InRoots(g, m, k + 1, t) && Events(t, b) == j;
        assert InRoots(g, s, k, t);
      }
    }
  }

  /** Between the initial tables and the result there is an event state for every number of classified
      edges, and one for every number of finished vertices. */
  lemma {:induction false} NoEventSkipped(g: Graph, j: nat)
    requires WellFormed(g)
    ensures j <= NumEdges(g) ==> exists t :: InRun(g, t) && t.edges == j
    ensures j <= |g| ==> exists t :: InRun(g, t) && t.vertices == j
  {
    RunCounts(g);
    if j <= NumEdges(g) {
      RootsCountUp(g, Start(|g|), 0, true, j);
      var t :| InRoots(g, Start(|g|), 0, t) && Events(t, true) == j;
      assert InRun(g, t);
    }
    if j <= |g| {
      RootsCountUp(g, Start(|g|), 0, false, j);
      var t :| InRoots(g, Start(|g|), 0, t) && Events(t, false) == j;
      assert InRun(g, t);
    }
  }
}
