/** Clearing the exit block never raises the reported path count: a lock-step simulation of the two
    searches, for graphs with any loops. */
module ExceptionDelta {
  import opened Graphs
  import opened DepthFirst
  import opened Paths
  import opened AcyclicNpath
  import opened CyclicNpath

  ghost predicate LeadsOnlyTo(row: seq<nat>, a: nat, b: nat) {
    forall v :: v in row ==> v == a || v == b
  }

  /** h is g without the last block's edges. */
  ghost predicate ExitDropped(g: Graph, h: Graph, exit: nat) {
    && WellFormed(g) && WellFormed(h) && |h| == |g| == exit + 1 && exit > 1 && h[exit] == []
    && forall u :: 0 <= u < exit ==> exit !in h[u] && (g[u] == h[u] || g[u] == h[u] + [exit])
  }

  /** And the last block of g leads nowhere but back to `home` and to itself. */
  ghost predicate WithoutExit(g: Graph, h: Graph, exit: nat, home: nat) {
    ExitDropped(g, h, exit) && LeadsOnlyTo(g[exit], home, exit)
  }

  /** Home is still being explored, or the exit block has no edges at all. */
  ghost predicate AtHome(g: Graph, s: Search, exit: nat, home: nat)
    requires Fits(g, s) && exit < |g|
  {
    g[exit] == [] || (home < exit && s.color[home].Grey?)
  }

  /** The search that keeps the exit is ahead of the one that cleared it. Only the parent entry of
      `home` may differ. */
  ghost predicate Ahead(g: Graph, s: Search, t: Search, exit: nat, home: nat) {
    && Fits(g, s) && Fits(g, t) && exit < |g| && AtHome(g, s, exit, home)
    && (forall x :: 0 <= x < exit ==> s.color[x] == t.color[x] && s.complexity[x] >= t.complexity[x])
    && (forall x :: 0 <= x < exit && (g[exit] == [] || x != home) ==>
          s.parent[x] == t.parent[x] && (s.parent[x].defined ==> s.parent[x].parent < exit))
    && t.color[exit].White? && !t.parent[exit].defined
    && match s.color[exit]
       case White => !s.parent[exit].defined && s.complexity[exit] == 0
       case Grey => false
       case Black => s.complexity[exit] == 1
  }

  lemma {:induction false} VertexAhead(g: Graph, h: Graph, s: Search, t: Search, u: nat, exit: nat, home: nat)
    requires WithoutExit(g, h, exit, home) && Ahead(g, s, t, exit, home) && u < exit && s.color[u].White?
    ensures Ahead(g, VisitVertex(g, s, u), VisitVertex(h, t, u), exit, home)
    decreases Whites(t), 0
  {
    var s2, t2 := Discover(s, u), Discover(t, u);
    assert Whites(t2) < Whites(t) by {
      assert u in Whites(t) && u !in Whites(t2);
    }
    EdgesAhead(g, h, s2, t2, u, 0, exit, home);
    FinishAhead(g, VisitEdges(g, s2, u, 0), VisitEdges(h, t2, u, 0), u, exit, home);
  }

  lemma FinishAhead(g: Graph, s: Search, t: Search, u: nat, exit: nat, home: nat)
    requires Ahead(g, s, t, exit, home) && u < exit && (g[exit] == [] || u != home)
    ensures Ahead(g, Credit(Settle(Blacken(s, u), u), u), Credit(Settle(Blacken(t, u), u), u), exit, home)
  {
  }

  lemma {:induction false} EdgeAhead(g: Graph, h: Graph, s: Search, t: Search, u: nat, v: nat, exit: nat, home: nat)
    requires WithoutExit(g, h, exit, home) && Ahead(g, s, t, exit, home) && u < exit && v < exit
    ensures Ahead(g, VisitEdge(g, s, u, v), VisitEdge(h, t, u, v), exit, home)
    decreases Whites(t), 1
  {
    if s.color[v].White? {
      assert Whites(TreeEdge(t, u, v)) == Whites(t);
      VertexAhead(g, h, TreeEdge(s, u, v), TreeEdge(t, u, v), v, exit, home);
    }
  }

  /** The exit block's own edges are back edges: they leave it at 1, and may define home's parent. */
  lemma {:induction false} ExitRow(g: Graph, s: Search, i: nat, exit: nat, home: nat)
    requires WellFormed(g) && Fits(g, s) && exit < |g| && i <= |g[exit]|
    requires forall v :: v in g[exit] ==> (v == home || v == exit) && s.color[v].Grey?
    requires s.parent[exit].defined
    ensures var r := VisitEdges(g, s, exit, i);
      && r.color == s.color && r.parent[exit] == s.parent[exit]
      && (forall x :: 0 <= x < |g| && x != exit ==> r.complexity[x] == s.complexity[x])
      && (forall x :: 0 <= x < |g| && (i == |g[exit]| || x != home) ==> r.parent[x] == s.parent[x])
      && r.complexity[exit] == if i < |g[exit]| then 1 else s.complexity[exit]
    decreases |g[exit]| - i
  {
    if i < |g[exit]| {
      assert g[exit][i] in g[exit];
      ExitRow(g, VisitEdge(g, s, exit, g[exit][i]), i + 1, exit, home);
    }
  }

  /** The edge to the exit, which only the first search has, comes last and adds exactly one path. */
  lemma ExitEdgeAhead(g: Graph, h: Graph, s: Search, t: Search, u: nat, exit: nat, home: nat)
    requires WithoutExit(g, h, exit, home) && Ahead(g, s, t, exit, home) && u < exit
    ensures Ahead(g, VisitEdge(g, s, u, exit), t, exit, home)
  {
    if s.color[exit].White? {
      ExitRow(g, Discover(TreeEdge(s, u, exit), exit), 0, exit, home);
    }
  }

  lemma {:induction false} EdgesAhead(g: Graph, h: Graph, s: Search, t: Search, u: nat, i: nat, exit: nat, home: nat)
    requires WithoutExit(g, h, exit, home) && Ahead(g, s, t, exit, home) && u < exit && i <= |h[u]|
    ensures Ahead(g, VisitEdges(g, s, u, i), VisitEdges(h, t, u, i), exit, home)
    decreases Whites(t), 1 + |h[u]| - i
  {
    if i < |h[u]| {
      var v := h[u][i];
      assert v in h[u] && g[u][i] == v;
      EdgeAhead(g, h, s, t, u, v, exit, home);
      EdgesAhead(g, h, VisitEdge(g, s, u, v), VisitEdge(h, t, u, v), u, i + 1, exit, home);
    } else if i < |g[u]| {
      assert g[u][i] == exit;
      ExitEdgeAhead(g, h, s, t, u, exit, home);
      assert VisitEdges(g, s, u, i) == VisitEdge(g, s, u, exit);
    }
  }

  // ---------- an exit block without edges

  lemma {:induction false} RootsAhead(g: Graph, h: Graph, s: Search, t: Search, k: nat, x: nat, exit: nat)
    requires WithoutExit(g, h, exit, exit) && Ahead(g, s, t, exit, exit) && g[exit] == []
    requires k <= exit && x < exit
    ensures VisitRoots(g, s, k).complexity[x] >= VisitRoots(h, t, k).complexity[x]
    decreases exit - k
  {
    if k < exit {
      if s.color[k].White? {
        VertexAhead(g, h, s, t, k, exit, exit);
        RootsAhead(g, h, VisitVertex(g, s, k), VisitVertex(h, t, k), k + 1, x, exit);
      } else {
        RootsAhead(g, h, s, t, k + 1, x, exit);
      }
    } else {
      ExitRoot(g, s, x, exit);
      ExitRoot(h, t, x, exit);
    }
  }

  /** An exit block met as a root settles at one path and credits nobody. */
  lemma ExitRoot(g: Graph, s: Search, x: nat, exit: nat)
    requires WellFormed(g) && Fits(g, s) && |g| == exit + 1 && g[exit] == [] && x < exit
    requires s.color[exit].White? ==> !s.parent[exit].defined
    ensures VisitRoots(g, s, exit).complexity[x] == s.complexity[x]
  {
    if s.color[exit].White? {
      var s2 := Discover(s, exit);
      assert VisitEdges(g, s2, exit, 0) == s2;
      assert VisitRoots(g, s, exit) == VisitVertex(g, s, exit);
    }
  }

  lemma ExitCleared(g: Graph)
    requires WellFormed(g) && |g| > 2
    ensures ExitDropped(g, Cleared(g, |g| - 1), |g| - 1)
  {
    var exit := |g| - 1;
    var h := Cleared(g, exit);
    ClearedWellFormed(g, exit);
    forall u | 0 <= u < exit
      ensures exit !in h[u] && (g[u] == h[u] || g[u] == h[u] + [exit])
    {
      WithoutLast(g[u], exit);
    }
  }

  lemma WithoutLast(s: seq<nat>, v: nat)
    requires Ascending(s) && Below(s, v + 1)
    ensures s == Without(s, v) || s == Without(s, v) + [v]
  {
    if v in s {
      var i :| 0 <= i < |s| && s[i] == v;
      assert s[|s| - 1] <= v && forall k :: 0 <= k < |s| - 1 ==> s[k] < s[|s| - 1];
      assert s == s[..|s| - 1] + [v];
    } else {
      WithoutAbsent(s, v);
    }
  }

  /** For every graph whose last block has no out-edges, cyclic or not, every other block counts at
      least as many paths with the exit kept as with the exit cleared. */
  lemma DeltaNonNegative(g: Graph, x: nat)
    requires WellFormed(g) && |g| > 2 && g[|g| - 1] == [] && x < |g| - 1
    ensures WellFormed(Cleared(g, |g| - 1))
    ensures Run(g).complexity[x] >= Run(Cleared(g, |g| - 1)).complexity[x]
  {
    ExitCleared(g);
    RootsAhead(g, Cleared(g, |g| - 1), Start(|g|), Start(|g|), 0, x, |g| - 1);
  }

  // ---------- an exit block that leads back to block 1 or to itself

  lemma EntryAhead(g: Graph, h: Graph, exit: nat)
    requires WithoutExit(g, h, exit, 1) && Isolated(g, 0) && Isolated(h, 0)
    ensures Ahead(g, Discover(AfterEntry(g), 1), Discover(AfterEntry(h), 1), exit, 1)
    ensures AfterEntry(g).color[1].White?
  {
    EntryVisited(g);
    EntryVisited(h);
    var s2 := Discover(Start(|g|), 0);
    assert VisitEdges(g, s2, 0, 0) == s2 == VisitEdges(h, s2, 0, 0);
  }

  /** With the entry block cleared, block 1 counts at least as many paths with the exit kept as with
      the exit cleared when the exit block leads only to block 1 and to itself, if anywhere. */
  lemma HomewardDelta(g: Graph)
    requires WellFormed(g) && |g| > 2 && Isolated(g, 0)
    requires LeadsOnlyTo(g[|g| - 1], 1, |g| - 1)
    ensures WellFormed(Cleared(g, |g| - 1))
    ensures Run(g).complexity[1] >= Run(Cleared(g, |g| - 1)).complexity[1]
  {
    var exit := |g| - 1;
    var h := Cleared(g, exit);
    ExitCleared(g);
    assert Isolated(h, 0);
    EntryAhead(g, h, exit);
    EdgesAhead(g, h, Discover(AfterEntry(g), 1), Discover(AfterEntry(h), 1), 1, 0, exit, 1);
    assert BlockOne(g).complexity[1] >= BlockOne(h).complexity[1];
    ReportedValue(g);
    ReportedValue(h);
    assert 1 in g[1] <==> 1 in h[1];
  }

  // ---------- any exit block of an acyclic graph

  lemma {:induction false} AcyclicAhead(g: Graph, h: Graph, u: nat, exit: nat)
    requires ExitDropped(g, h, exit) && Acyclic(g) && Acyclic(h) && u < |g|
    ensures PathCount(g, u) >= PathCount(h, u)
    decreases RankOf(g)[u], |g[u]| + 1
  {
    if u < exit && g[u] != [] {
      CountAhead(g, h, u, 0, exit);
    }
  }

  lemma {:induction false} CountAhead(g: Graph, h: Graph, u: nat, i: nat, exit: nat)
    requires ExitDropped(g, h, exit) && Acyclic(g) && Acyclic(h) && u < exit && i <= |h[u]|
    ensures CountFrom(g, u, i) >= CountFrom(h, u, i)
    decreases RankOf(g)[u], |g[u]| - i
  {
    if i < |h[u]| {
      assert HasEdge(g, u, g[u][i]) && g[u][i] == h[u][i];
      AcyclicAhead(g, h, g[u][i], exit);
      CountAhead(g, h, u, i + 1, exit);
    }
  }

  /** In an acyclic graph, whatever the exit block leads to, no block counts fewer paths with the exit
      kept than with it cleared. */
  lemma AcyclicDelta(g: Graph, u: nat)
    requires WellFormed(g) && Acyclic(g) && |g| > 2 && u < |g|
    ensures WellFormed(Cleared(g, |g| - 1)) && Acyclic(Cleared(g, |g| - 1))
    ensures Run(g).complexity[u] >= Run(Cleared(g, |g| - 1)).complexity[u]
  {
    var h := Cleared(g, |g| - 1);
    ExitCleared(g);
    ClearedAcyclic(g, |g| - 1);
    AcyclicAhead(g, h, u, |g| - 1);
    NpathCountsPaths(g, u);
    NpathCountsPaths(h, u);
  }
}
