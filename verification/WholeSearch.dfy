/** A complete search: what it counts, what one root's tree computes, and that it orders the blocks
    of an acyclic graph topologically. */
module WholeSearch {
  import opened Graphs
  import opened Sums
  import opened DepthFirst
  import opened SearchTheory

  // ---------- every edge is classified once

  /** Edges counted so far beyond those of the finished vertices. */
  function Surplus(g: Graph, s: Search): int
    requires Below(s.order, |g|)
  {
    s.edges - SumAt(Degrees(g), s.order)
  }

  lemma {:induction false} EdgeCounted(g: Graph, s: Search, u: nat, v: nat)
    requires WellFormed(g) && Fits(g, s) && u < |g| && v < |g| && Below(s.order, |g|)
    ensures var r := VisitEdge(g, s, u, v);
      Below(r.order, |g|) && Surplus(g, r) == Surplus(g, s) + 1
    decreases Whites(s), 1
  {
    if s.color[v].White? {
      var s1 := TreeEdge(s, u, v);
      assert Whites(s1) == Whites(s);
      VertexCounted(g, s1, v);
    }
  }

  lemma {:induction false} VertexCounted(g: Graph, s: Search, v: nat)
    requires WellFormed(g) && Fits(g, s) && v < |g| && s.color[v].White? && Below(s.order, |g|)
    ensures var r := VisitVertex(g, s, v);
      Below(r.order, |g|) && Surplus(g, r) == Surplus(g, s)
    decreases Whites(s), 0
  {
    var s2 := Discover(s, v);
    assert Whites(s2) < Whites(s) by {
      assert v in Whites(s) && v !in Whites(s2);
    }
    EdgesCounted(g, s2, v, 0);
    var t := VisitEdges(g, s2, v, 0);
    assert (t.order + [v])[..|t.order|] == t.order;
  }

  lemma {:induction false} EdgesCounted(g: Graph, s: Search, u: nat, i: nat)
    requires WellFormed(g) && Fits(g, s) && u < |g| && i <= |g[u]| && Below(s.order, |g|)
    ensures var r := VisitEdges(g, s, u, i);
      Below(r.order, |g|) && Surplus(g, r) == Surplus(g, s) + |g[u]| - i
    decreases Whites(s), 1 + |g[u]| - i
  {
    if i < |g[u]| {
      EdgeCounted(g, s, u, g[u][i]);
      EdgesCounted(g, VisitEdge(g, s, u, g[u][i]), u, i + 1);
    }
  }

  // ---------- between two roots

  ghost predicate Idle(g: Graph, s: Search) {
    && Tidy(g, s) && Logged(g, s)
    && forall x :: 0 <= x < |g| ==> !s.color[x].Grey?
  }

  /** The tables when the root of a tree has settled, before it pays its own parent entry. */
  function Settled(g: Graph, s: Search, u: nat): (r: Search)
    requires WellFormed(g) && Fits(g, s) && u < |g| && s.color[u].White?
    ensures Fits(g, r)
  {
    Settle(Blacken(VisitEdges(g, Discover(s, u), u, 0), u), u)
  }

  lemma CreditIdle(g: Graph, t: Search, u: nat)
    requires Idle(g, t) && u < |g|
    ensures Idle(g, Credit(t, u))
  {
  }

  lemma SettleIdle(g: Graph, s: Search, u: nat, t: Search)
    requires Idle(g, s) && u < |g| && s.color[u].White?
    requires Tidy(g, t) && Logged(g, t) && Frame(g, Discover(s, u), t, u)
    ensures var r := Settle(Blacken(t, u), u);
      && Idle(g, r)
      && r.color[u].Black? && (forall x :: 0 <= x < |g| && s.color[x].Black? ==> r.color[x].Black?)
      && (forall x :: 0 <= x < |g| && s.color[x].Black? ==> r.complexity[x] == s.complexity[x])
  {
    LoggedFinish(g, t, u);
  }

  /** A root visit leaves the search idle again; earlier trees keep their values. */
  lemma RootFrame(g: Graph, s: Search, u: nat)
    requires WellFormed(g) && Idle(g, s) && u < |g| && s.color[u].White?
    requires u == 0 || s.color[0].Black?
    ensures var t := Settled(g, s, u);
      && VisitVertex(g, s, u) == Credit(t, u)
      && Idle(g, t) && Idle(g, Credit(t, u))
      && t.color[u].Black? && (forall x :: 0 <= x < |g| && s.color[x].Black? ==> t.color[x].Black?)
      && s.order <= t.order && t.order[|t.order| - 1] == u
      && (forall x :: 0 <= x < |g| && s.color[x].Black? ==> t.complexity[x] == s.complexity[x])
  {
    var s2 := Discover(s, u);
    EdgesFrame(g, s2, u, 0);
    EdgesLogged(g, s2, u, 0);
    SettleIdle(g, s, u, VisitEdges(g, s2, u, 0));
    CreditIdle(g, Settled(g, s, u), u);
  }

  /** One root's tree: the new part of the log solves its equations with the values before the
      root's credit, and a credit goes to a source of an edge that closes a cycle through the root. */
  lemma RootVisit(g: Graph, s: Search, u: nat)
    requires WellFormed(g) && Idle(g, s) && u < |g| && s.color[u].White?
    requires u == 0 || s.color[0].Black?
    ensures var t := Settled(g, s, u);
      && Below(t.order, |g|)
      && Solved(g, t.order, t.complexity, |s.order|)
      && (t.parent[u].defined ==>
            && HasEdge(g, t.parent[u].parent, u) && Reaches(g, u, t.parent[u].parent)
            && !s.color[t.parent[u].parent].Black?)
  {
    var s2 := Discover(s, u);
    assert AllReach(g, s2, u) by {
      ReachesSelf(g, u);
    }
    VertexSolved(g, s2, u, |s.order|);
    EdgesParent(g, s2, u, 0, u);
  }

  /** What the end of a root's tree adds: vertex 0 never pays a parent, and any other root pays its value
      once, to the source of the first edge that came back to it, if there is one. */
  lemma {:induction false} RootPays(g: Graph, s: Search, u: nat)
    requires WellFormed(g) && Idle(g, s) && u < |g| && s.color[u].White?
    requires u == 0 || s.color[0].Black?
    ensures var t, r := Settled(g, s, u), VisitVertex(g, s, u);
      forall x :: 0 <= x < |g| ==>
        r.complexity[x] == t.complexity[x] +
          (if u != 0 && t.parent[u].defined && t.parent[u].parent == x then t.complexity[u] else 0)
  {
    RootFrame(g, s, u);
  }

  // ---------- parents that back edges define

  /** A parent entry of a discovered vertex x that appears later names the source of an edge that
      closes a cycle through x, found in the same tree. */
  ghost predicate ParentCloses(g: Graph, s: Search, r: Search, x: nat)
    requires Fits(g, s) && Fits(g, r) && x < |g|
  {
    !s.color[x].White? && r.parent[x] != s.parent[x] ==>
      && r.parent[x].defined
      && HasEdge(g, r.parent[x].parent, x) && Reaches(g, x, r.parent[x].parent)
      && !s.color[r.parent[x].parent].Black?
  }

  lemma {:induction false} EdgeParent(g: Graph, s: Search, u: nat, v: nat, x: nat)
    requires WellFormed(g) && Tidy(g, s) && u < |g| && v in g[u] && x < |g|
    requires s.color[u].Grey? && !s.color[0].White?
    requires Logged(g, s) && AllReach(g, s, u)
    ensures ParentCloses(g, s, VisitEdge(g, s, u, v), x)
    decreases Whites(s), 1
  {
    if s.color[v].White? {
      var s2 := Discover(TreeEdge(s, u, v), v);
      assert Whites(s2) < Whites(s) by {
        assert v in Whites(s) && v !in Whites(s2);
      }
      GreyPathGrows(g, s2, u, v);
      EdgesParent(g, s2, v, 0, x);
    }
  }

  lemma {:induction false} EdgesParent(g: Graph, s: Search, u: nat, i: nat, x: nat)
    requires WellFormed(g) && Tidy(g, s) && u < |g| && i <= |g[u]| && x < |g|
    requires s.color[u].Grey? && !s.color[0].White?
    requires Logged(g, s) && AllReach(g, s, u)
    ensures ParentCloses(g, s, VisitEdges(g, s, u, i), x)
    decreases Whites(s), 1 + |g[u]| - i
  {
    if i < |g[u]| {
      var m := VisitEdge(g, s, u, g[u][i]);
      assert ParentCloses(g, s, m, x) by {
        EdgeParent(g, s, u, g[u][i], x);
      }
      var r := VisitEdges(g, m, u, i + 1);
      assert ParentCloses(g, m, r, x) by {
        StillInside(g, s, u, g[u][i]);
        EdgesParent(g, m, u, i + 1, x);
      }
      assert Frame(g, s, m, u) by {
        EdgeFrame(g, s, u, g[u][i]);
      }
      ParentComposes(g, s, m, r, u, x);
    }
  }

  lemma ParentComposes(g: Graph, s: Search, m: Search, r: Search, u: nat, x: nat)
    requires Fits(g, s) && Fits(g, m) && Fits(g, r) && x < |g|
    requires Frame(g, s, m, u)
    requires ParentCloses(g, s, m, x) && ParentCloses(g, m, r, x)
    ensures ParentCloses(g, s, r, x)
  {
  }

  // ---------- the whole run

  ghost predicate Complete(g: Graph, s: Search) {
    && Logged(g, s)
    && Below(s.order, |g|)
    && forall x :: 0 <= x < |g| ==> s.color[x].Black?
  }

  lemma {:induction false} RootCounted(g: Graph, s: Search, k: nat)
    requires WellFormed(g) && Idle(g, s) && k < |g| && Below(s.order, |g|)
    requires forall x :: 0 <= x < k ==> s.color[x].Black?
    requires s.color[k].White?
    ensures var m := VisitVertex(g, s, k);
      && Idle(g, m) && Below(m.order, |g|) && Surplus(g, m) == Surplus(g, s)
      && forall x :: 0 <= x < k + 1 ==> m.color[x].Black?
  {
    RootFrame(g, s, k);
    VertexCounted(g, s, k);
  }

  lemma {:induction false} RootsComplete(g: Graph, s: Search, k: nat)
    requires WellFormed(g) && Idle(g, s) && k <= |g| && Below(s.order, |g|)
    requires forall x :: 0 <= x < k ==> s.color[x].Black?
    ensures var r := VisitRoots(g, s, k); Complete(g, r) && Surplus(g, r) == Surplus(g, s)
    decreases |g| - k
  {
    if k < |g| && s.color[k].White? {
      RootCounted(g, s, k);
      RootsComplete(g, VisitVertex(g, s, k), k + 1);
    } else if k < |g| {
      RootsComplete(g, s, k + 1);
    }
  }

  lemma StartIdle(g: Graph)
    requires WellFormed(g)
    ensures Idle(g, Start(|g|)) && Below(Start(|g|).order, |g|)
  {
  }

  /** On every graph the search finishes each vertex exactly once and classifies each edge exactly
      once, so the visitor's own count agrees with the analyser's E - V + 2. */
  lemma {:induction false} RunCounts(g: Graph)
    requires WellFormed(g)
    ensures var r := Run(g);
      && Complete(g, r)
      && Distinct(r.order) && |r.order| == |g| && (forall x: nat :: x < |g| ==> x in r.order)
      && r.edges == NumEdges(g) && r.vertices == |g|
      && Cabe(r) == NumEdges(g) - |g| + 2
  {
    StartIdle(g);
    RootsComplete(g, Start(|g|), 0);
    var r := Run(g);
    EnumerationCountsEdges(g, r.order);
    EnumerationLength(r.order, |g|);
  }

  // ---------- acyclic graphs

  /** Every edge leads to a block that finished earlier. */
  ghost predicate Topological(g: Graph, order: seq<nat>)
    requires Below(order, |g|)
  {
    && Distinct(order)
    && (forall x: nat :: x < |g| ==> x in order)
    && forall k, v :: 0 <= k < |order| && v in g[order[k]] ==> v in order[..k]
  }

  /** Between two roots, with the blocks below k done: every equation so far holds. */
  ghost predicate SolvedUpTo(g: Graph, s: Search, k: nat)
    requires WellFormed(g) && k <= |g|
  {
    && Idle(g, s) && (forall x :: 0 <= x < k ==> s.color[x].Black?)
    && Below(s.order, |g|) && Solved(g, s.order, s.complexity, 0)
  }

  lemma {:induction false} NextRootSolved(g: Graph, s: Search, k: nat)
    requires WellFormed(g) && Acyclic(g) && k < |g| && SolvedUpTo(g, s, k)
    ensures SolvedUpTo(g, if s.color[k].White? then VisitVertex(g, s, k) else s, k + 1)
  {
    if s.color[k].White? {
      RootCounted(g, s, k);
      AcyclicRoot(g, s, k);
    }
  }

  lemma {:induction false} RootsSolved(g: Graph, s: Search, k: nat)
    requires WellFormed(g) && Acyclic(g) && k <= |g| && SolvedUpTo(g, s, k)
    ensures SolvedUpTo(g, VisitRoots(g, s, k), |g|)
    decreases |g| - k
  {
    if k < |g| {
      NextRootSolved(g, s, k);
      RootsSolved(g, if s.color[k].White? then VisitVertex(g, s, k) else s, k + 1);
    }
  }

  /** Without cycles no root has a parent, so nothing is credited outside the tree edges. */
  lemma {:induction false} AcyclicRoot(g: Graph, s: Search, u: nat)
    requires WellFormed(g) && Acyclic(g) && Idle(g, s) && u < |g| && s.color[u].White?
    requires u == 0 || s.color[0].Black?
    requires Below(s.order, |g|) && Solved(g, s.order, s.complexity, 0)
    ensures var m := VisitVertex(g, s, u);
      m == Settled(g, s, u) && Below(m.order, |g|) && Solved(g, m.order, m.complexity, 0)
  {
    var m := Settled(g, s, u);
    RootFrame(g, s, u);
    RootVisit(g, s, u);
    if m.parent[u].defined {
      assert OnCycle(g, u);
    }
    assert forall x :: x in s.order ==> m.complexity[x] == s.complexity[x];
    SolvedExtends(g, s.order, s.complexity, m.order, m.complexity, 0);
  }

  lemma AcyclicRun(g: Graph)
    requires WellFormed(g) && Acyclic(g)
    ensures var r := Run(g);
      Below(r.order, |g|) && Solved(g, r.order, r.complexity, 0) && Topological(g, r.order)
  {
    StartIdle(g);
    RunCounts(g);
    RootsSolved(g, Start(|g|), 0);
    var r := Run(g);
    forall k, v | 0 <= k < |r.order| && v in g[r.order[k]]
      ensures v in r.order[..k]
    {
      assert Equation(g, r.order, r.complexity, k);
      assert HasEdge(g, r.order[k], v) && !OnCycle(g, v);
    }
  }

  ghost function Position(order: seq<nat>, v: nat): (k: nat)
    requires v in order
    ensures k < |order| && order[k] == v
  {
    var k: nat :| k < |order| && order[k] == v;
    k
  }

  lemma TopologicalIsRanked(g: Graph, order: seq<nat>)
    requires WellFormed(g) && Below(order, |g|) && Topological(g, order)
    ensures exists rank :: Ranked(g, rank)
  {
    var rank := seq(|g|, v requires 0 <= v < |g| => Position(order, v));
    forall u: nat, v: nat | HasEdge(g, u, v) && v < |g|
      ensures rank[v] < rank[u]
    {
      assert v in g[order[rank[u]]];
      var j :| 0 <= j < rank[u] && order[j] == v;
      assert order[rank[v]] == v;
    }
    assert Ranked(g, rank);
  }

  lemma AcyclicIsRanked(g: Graph)
    requires WellFormed(g) && Acyclic(g)
    ensures exists rank :: Ranked(g, rank)
  {
    AcyclicRun(g);
    TopologicalIsRanked(g, Run(g).order);
  }

  /** The search sees a back edge exactly when the graph has a cycle. */
  lemma AcyclicIffTopological(g: Graph)
    requires WellFormed(g)
    ensures Below(Run(g).order, |g|)
    ensures Acyclic(g) <==> Topological(g, Run(g).order)
  {
    RunCounts(g);
    if Acyclic(g) {
      AcyclicRun(g);
    }
    if Topological(g, Run(g).order) {
      TopologicalIsRanked(g, Run(g).order);
      var rank :| Ranked(g, rank);
      RankedIsAcyclic(g, rank);
    }
  }
}
