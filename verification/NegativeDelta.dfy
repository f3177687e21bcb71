/** The exception delta can be negative when the last block has an out-edge. */
module NegativeDelta {
  import opened Graphs
  import opened DepthFirst
  import opened Analysis

  /** Block 4, the last one, leads back into the loop of blocks 1 and 3. */
  const EXIT_LOOPS: Graph := [[1], [2, 3], [4], [1, 2], [3]]

  lemma OneEdge(g: Graph, s: Search, u: nat)
    requires WellFormed(g) && Fits(g, s) && u < |g| && |g[u]| == 1
    ensures VisitEdges(g, s, u, 0) == VisitEdge(g, s, u, g[u][0])
  {
    assert VisitEdges(g, s, u, 0) == VisitEdges(g, VisitEdge(g, s, u, g[u][0]), u, 1);
  }

  lemma TwoEdges(g: Graph, s: Search, u: nat)
    requires WellFormed(g) && Fits(g, s) && u < |g| && |g[u]| == 2
    ensures VisitEdges(g, s, u, 0) == VisitEdge(g, VisitEdge(g, s, u, g[u][0]), u, g[u][1])
  {
    var t := VisitEdge(g, s, u, g[u][0]);
    assert VisitEdges(g, s, u, 0) == VisitEdges(g, t, u, 1);
    assert VisitEdges(g, t, u, 1) == VisitEdges(g, VisitEdge(g, t, u, g[u][1]), u, 2);
  }

  /** Five roots: the entry block, block 1 with what it finds, and block 4 unless found before. */
  lemma {:induction false} FourRoots(g: Graph, r: Search)
    requires WellFormed(g) && |g| == 5 && g[0] == []
    requires Fits(g, Entered()) && r == VisitVertex(g, Entered(), 1)
    requires r.color[1].Black? && r.color[2].Black? && r.color[3].Black?
    ensures Run(g) == if r.color[4].White? then VisitVertex(g, r, 4) else r
  {
    var s, t := Start(5), Discover(Start(5), 0);
    assert VisitVertex(g, s, 0) == Entered() by {
      assert VisitEdges(g, t, 0, 0) == t;
    }
    RootTurn(g, s, 0);
    RootTurn(g, Entered(), 1);
    RootTurn(g, r, 2);
    RootTurn(g, r, 3);
    RootTurn(g, r, 4);
  }

  lemma RootTurn(g: Graph, s: Search, k: nat)
    requires WellFormed(g) && Fits(g, s) && k < |g|
    ensures var t := if s.color[k].White? then VisitVertex(g, s, k) else s;
      VisitRoots(g, s, k) == if k + 1 == |g| then t else VisitRoots(g, t, k + 1)
  {
  }

  /** The tables after the entry block. */
  function Entered(): Search {
    Credit(Settle(Blacken(Discover(Start(5), 0), 0), 0), 0)
  }

  lemma KeptThree(g: Graph, s: Search)
    requires g == [[], [2, 3], [4], [1, 2], [3]] && WellFormed(g) && Fits(g, s)
    requires s.color == [Black, Grey, Grey, White, Grey] && s.complexity == [1, 0, 0, 0, 0]
    requires s.parent[3] == Parent(true, 4)
    ensures var r := VisitVertex(g, s, 3);
      && r.color == [Black, Grey, Grey, Black, Grey] && r.complexity == [1, 0, 0, 1, 1]
      && (s.parent[2].defined ==> r.parent[2] == s.parent[2]) && r.parent[4] == s.parent[4]
      && r.parent[1].parent == if s.parent[1].defined then s.parent[1].parent else 3
  {
    TwoEdges(g, Discover(s, 3), 3);
  }

  lemma KeptFour(g: Graph, s: Search)
    requires g == [[], [2, 3], [4], [1, 2], [3]] && WellFormed(g) && Fits(g, s)
    requires s.color == [Black, Grey, Grey, White, White] && s.complexity == [1, 0, 0, 0, 0]
    requires !s.parent[3].defined && s.parent[4] == Parent(true, 2)
    requires s.parent[2] == Parent(true, 1) && !s.parent[1].defined
    ensures var r := VisitVertex(g, s, 4);
      && r.color == [Black, Grey, Grey, Black, Black] && r.complexity == [1, 0, 1, 1, 1]
      && r.parent[2] == s.parent[2] && r.parent[1].parent == 3
  {
    var t := Discover(s, 4);
    OneEdge(g, t, 4);
    KeptThree(g, TreeEdge(t, 4, 3));
  }

  lemma KeptTwo(g: Graph, s: Search)
    requires g == [[], [2, 3], [4], [1, 2], [3]] && WellFormed(g) && Fits(g, s)
    requires s.color == [Black, Grey, White, White, White] && s.complexity == [1, 0, 0, 0, 0]
    requires !s.parent[4].defined && !s.parent[3].defined
    requires s.parent[2] == Parent(true, 1) && !s.parent[1].defined
    ensures var r := VisitVertex(g, s, 2);
      && r.color == [Black, Grey, Black, Black, Black] && r.complexity == [1, 1, 1, 1, 1]
      && r.parent[1].parent == 3
  {
    var t := Discover(s, 2);
    OneEdge(g, t, 2);
    KeptFour(g, TreeEdge(t, 2, 4));
  }

  lemma KeptRun(g: Graph)
    requires g == [[], [2, 3], [4], [1, 2], [3]] && WellFormed(g)
    ensures Run(g).complexity[1] == 2
  {
    var s := Discover(Entered(), 1);
    TwoEdges(g, s, 1);
    KeptTwo(g, TreeEdge(s, 1, 2));
    FourRoots(g, VisitVertex(g, Entered(), 1));
  }

  lemma DroppedTwo(g: Graph, s: Search)
    requires g == [[], [2, 3], [], [1, 2], []] && WellFormed(g) && Fits(g, s)
    requires s.color == [Black, Grey, White, White, White] && s.complexity == [1, 0, 0, 0, 0]
    requires s.parent[2] == Parent(true, 1)
    ensures var r := VisitVertex(g, s, 2);
      && r.color == [Black, Grey, Black, White, White] && r.complexity == [1, 1, 1, 0, 0]
      && r.parent == s.parent
  {
    assert VisitEdges(g, Discover(s, 2), 2, 0) == Discover(s, 2);
  }

  lemma DroppedThree(g: Graph, s: Search)
    requires g == [[], [2, 3], [], [1, 2], []] && WellFormed(g) && Fits(g, s)
    requires s.color == [Black, Grey, Black, White, White] && s.complexity == [1, 1, 1, 0, 0]
    requires s.parent[3] == Parent(true, 1) && !s.parent[1].defined
    ensures var r := VisitVertex(g, s, 3);
      && r.color == [Black, Grey, Black, Black, White] && r.complexity == [1, 3, 1, 2, 0]
      && r.parent[4] == s.parent[4] && r.parent[1].parent == 3
  {
    TwoEdges(g, Discover(s, 3), 3);
  }

  lemma DroppedOne(g: Graph)
    requires g == [[], [2, 3], [], [1, 2], []] && WellFormed(g)
    ensures Fits(g, Entered())
    ensures var r := VisitVertex(g, Entered(), 1);
      && r.color == [Black, Black, Black, Black, White] && r.complexity[1] == 3 && !r.parent[4].defined
  {
    var s := Discover(Entered(), 1);
    var s2 := TreeEdge(s, 1, 2);
    TwoEdges(g, s, 1);
    DroppedTwo(g, s2);
    DroppedThree(g, TreeEdge(VisitVertex(g, s2, 2), 1, 3));
  }

  lemma DroppedRun(g: Graph)
    requires g == [[], [2, 3], [], [1, 2], []] && WellFormed(g)
    ensures Run(g).complexity[1] == 3
  {
    DroppedOne(g);
    var s := VisitVertex(g, Entered(), 1);
    assert VisitEdges(g, Discover(s, 4), 4, 0) == Discover(s, 4);
    FourRoots(g, s);
  }

  lemma RowKept(g: Graph, v: nat, u: nat)
    requires WellFormed(g) && u < |g| && u != v && v !in g[u]
    ensures Cleared(g, v)[u] == g[u]
  {
    WithoutAbsent(g[u], v);
  }

  lemma RowEmptied(g: Graph, v: nat, u: nat)
    requires WellFormed(g) && u < |g| && (u == v || g[u] == [v])
    ensures Cleared(g, v)[u] == []
  {
    if u != v {
      assert g[u][..0] == [] && g[u][0] == v;
    }
  }

  lemma ClearedRows(g: Graph, v: nat, a: seq<nat>, b: seq<nat>, c: seq<nat>, d: seq<nat>, e: seq<nat>)
    requires WellFormed(g) && |g| == 5
    requires Cleared(g, v)[0] == a && Cleared(g, v)[1] == b && Cleared(g, v)[2] == c
    requires Cleared(g, v)[3] == d && Cleared(g, v)[4] == e
    ensures Cleared(g, v) == [a, b, c, d, e]
  {
  }

  lemma FiveRows(g: Graph)
    requires |g| == 5 && forall u :: 0 <= u < 5 ==> |g[u]| <= 2 && Below(g[u], 5)
    requires forall u :: 0 <= u < 5 && |g[u]| == 2 ==> g[u][0] < g[u][1]
    ensures WellFormed(g)
  {
  }

  lemma ExitLoopsKept(g: Graph)
    requires g == [[1], [2, 3], [4], [1, 2], [3]] && WellFormed(g)
    ensures Cleared(g, 0) == [[], [2, 3], [4], [1, 2], [3]]
  {
    assert Cleared(g, 0)[1] == g[1] && Cleared(g, 0)[2] == g[2] by {
      RowKept(g, 0, 1);
      RowKept(g, 0, 2);
    }
    assert Cleared(g, 0)[3] == g[3] && Cleared(g, 0)[4] == g[4] by {
      RowKept(g, 0, 3);
      RowKept(g, 0, 4);
    }
    RowEmptied(g, 0, 0);
    ClearedRows(g, 0, [], g[1], g[2], g[3], g[4]);
  }

  lemma ExitLoopsDropped(g: Graph)
    requires g == [[], [2, 3], [4], [1, 2], [3]] && WellFormed(g)
    ensures Cleared(g, 4) == [[], [2, 3], [], [1, 2], []]
  {
    assert Cleared(g, 4)[0] == g[0] && Cleared(g, 4)[1] == g[1] && Cleared(g, 4)[3] == g[3] by {
      RowKept(g, 4, 0);
      RowKept(g, 4, 1);
      RowKept(g, 4, 3);
    }
    assert Cleared(g, 4)[2] == [] && Cleared(g, 4)[4] == [] by {
      assert g[2] == [4];
      RowEmptied(g, 4, 2);
      RowEmptied(g, 4, 4);
    }
    ClearedRows(g, 4, g[0], g[1], [], g[3], []);
  }

  /** With exceptions the function counts fewer paths than without. */
  lemma {:induction false} DeltaCanBeNegative(f: FunctionData)
    ensures WellFormed(EXIT_LOOPS) && EXIT_LOOPS[|EXIT_LOOPS| - 1] != []
    ensures Measured(f, EXIT_LOOPS).npathE == 2 && Measured(f, EXIT_LOOPS).npath == 3
  {
    FiveRows(EXIT_LOOPS);
    ExitLoopsKept(EXIT_LOOPS);
    ExitLoopsDropped(KeepingExit(EXIT_LOOPS));
    KeptRun(KeepingExit(EXIT_LOOPS));
    DroppedRun(DroppingExit(EXIT_LOOPS));
  }
}
