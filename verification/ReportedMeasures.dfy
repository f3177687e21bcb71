/** What the recorded measures of a function mean. */
module ReportedMeasures {
  import opened Graphs
  import opened DepthFirst
  import opened Paths
  import opened AcyclicNpath
  import opened CyclicNpath
  import opened Cyclomatic
  import opened ExceptionDelta
  import opened Analysis

  // ---------- clearing blocks

  lemma {:induction false} ClearedIsolated(g: Graph, v: nat)
    requires WellFormed(g) && v < |g|
    ensures Isolated(Cleared(g, v), v)
    ensures forall x :: 0 <= x < |g| && Isolated(g, x) ==> Isolated(Cleared(g, v), x)
  {
    var h := Cleared(g, v);
    assert forall u :: 0 <= u < |g| ==> h[u] == if u == v then [] else Without(g[u], v);
  }

  lemma EntryIsolated(g: Graph)
    requires WellFormed(g) && |g| >= 2
    ensures Isolated(KeepingExit(g), 0) && Isolated(DroppingExit(g), 0)
    ensures |g| > 2 ==> Isolated(DroppingExit(g), |g| - 1)
  {
    ClearedIsolated(g, 0);
    if |g| > 2 {
      ClearedIsolated(KeepingExit(g), |g| - 1);
    }
  }

  lemma {:induction false} AnalysedAcyclic(g: Graph)
    requires WellFormed(g) && Acyclic(g)
    ensures Acyclic(KeepingExit(g)) && Acyclic(DroppingExit(g))
  {
    ClearedAcyclic(g, 0);
    if |g| > 2 {
      ClearedAcyclic(KeepingExit(g), |g| - 1);
    }
  }

  // ---------- the recorded path counts

  /** Loop-free functions: both recorded NPATH values are numbers of execution paths from block 1. */
  lemma {:induction false} ReportedPaths(f: FunctionData, g: Graph)
    requires WellFormed(g) && Acyclic(g) && |g| >= 2
    ensures Acyclic(KeepingExit(g)) && Acyclic(DroppingExit(g))
    ensures Measured(f, g).npathE == |MaximalPaths(KeepingExit(g), 1)|
    ensures Measured(f, g).npath == |MaximalPaths(DroppingExit(g), 1)|
  {
    AnalysedAcyclic(g);
    NpathCountsPaths(KeepingExit(g), 1);
    NpathCountsPaths(DroppingExit(g), 1);
  }

  /** Any function: the recorded NPATH is the path count of the collapsed graph, doubled when block 1
      loops to itself. */
  ghost predicate CollapsedValue(g: Graph, value: int)
    requires WellFormed(g) && |g| >= 2
  {
    var order := Run(g).order;
    && (forall x: nat :: x < |g| ==> x in order)
    && var h := Collapsed(g, order);
       && WellFormed(h) && Acyclic(h)
       && value == (if 1 in g[1] then 2 else 1) * PathCount(h, 1)
  }

  lemma {:induction false} ReportedCollapsed(f: FunctionData, g: Graph)
    requires WellFormed(g) && |g| >= 2
    ensures CollapsedValue(KeepingExit(g), Measured(f, g).npathE)
    ensures CollapsedValue(DroppingExit(g), Measured(f, g).npath)
  {
    EntryIsolated(g);
    EntryCollapses(KeepingExit(g));
    EntryCollapses(DroppingExit(g));
  }

  lemma {:induction false} EntryCollapses(h: Graph)
    requires WellFormed(h) && |h| >= 2 && Isolated(h, 0)
    ensures CollapsedValue(h, NpathOf(h))
  {
    ReportedNpath(h);
  }

  // ---------- the two deltas

  /** The assertion that main.cpp leaves commented out. */
  ghost predicate DeltaHolds(g: Graph)
    requires WellFormed(g) && |g| >= 2
  {
    NpathOf(KeepingExit(g)) >= NpathOf(DroppingExit(g))
  }

  /** The NPATH delta that main.cpp prints is not negative when the exit block, as the analyser sees
      it, leads only to block 1 and to itself, and when the analysed function has no loop. The
      cyclomatic delta never is. */
  lemma DeltasNonNegative(f: FunctionData, g: Graph)
    requires WellFormed(g) && |g| >= 2
    ensures Measured(f, g).cyclomaticE >= Measured(f, g).cyclomatic
    ensures LeadsOnlyTo(KeepingExit(g)[|g| - 1], 1, |g| - 1) || Acyclic(KeepingExit(g)) ==>
      DeltaHolds(g) && Measured(f, g).npathE >= Measured(f, g).npath
  {
    var k, d := KeepingExit(g), DroppingExit(g);
    EntryIsolated(g);
    if |g| > 2 {
      assert forall u :: 0 <= u < |g| ==> d[u] == if u == |g| - 1 then [] else Without(k[u], |g| - 1);
      OutEdgesMonotone(k, d, |g|);
      if LeadsOnlyTo(k[|g| - 1], 1, |g| - 1) {
        HomewardDelta(k);
      } else if Acyclic(k) {
        AcyclicDelta(k, 1);
      }
    }
  }

  // ---------- NPATH against the cyclomatic number

  ghost predicate SourcesReachable(g: Graph) {
    forall v :: 0 <= v < |g| && g[v] != [] ==> Reaches(g, 1, v)
  }

  lemma IsolatedUnreachable(g: Graph, u: nat, v: nat)
    requires WellFormed(g) && Acyclic(g) && Isolated(g, v) && u != v && u < |g|
    ensures !Reaches(g, u, v)
    decreases RankOf(g)[u]
  {
    if Reaches(g, u, v) {
      ReachesStep(g, u, v);
      var w: nat :| HasEdge(g, u, w) && Reaches(g, w, v);
      IsolatedUnreachable(g, w, v);
    }
  }

  lemma NpathExceeds(g: Graph, missing: set<nat>)
    requires WellFormed(g) && Acyclic(g) && |g| >= 2 && SourcesReachable(g)
    requires forall v :: v in missing ==> v != 1 && Isolated(g, v)
    ensures NpathOf(g) >= CyclomaticOf(g) + |missing|
  {
    NpathCountsPaths(g, 1);
    NpathBeatsCyclomatic(g, 1);
    forall v | v in missing
      ensures v < |g| && !Reaches(g, 1, v)
    {
      IsolatedUnreachable(g, 1, v);
    }
    ReachableBelow(g, missing);
  }

  /** Loop-free functions whose remaining edges all start at blocks reachable from block 1: NPATH
      exceeds the recorded cyclomatic number by at least the number of cleared blocks. */
  lemma {:induction false} ReportedDominates(f: FunctionData, g: Graph)
    requires WellFormed(g) && Acyclic(g) && |g| >= 2
    ensures Acyclic(KeepingExit(g)) && Acyclic(DroppingExit(g))
    ensures SourcesReachable(KeepingExit(g)) ==> Measured(f, g).npathE >= Measured(f, g).cyclomaticE + 1
    ensures SourcesReachable(DroppingExit(g)) ==>
      Measured(f, g).npath >= Measured(f, g).cyclomatic + if |g| > 2 then 2 else 1
  {
    AnalysedAcyclic(g);
    KeptDominates(g);
    DroppedDominates(g);
  }

  lemma {:induction false} KeptDominates(g: Graph)
    requires WellFormed(g) && |g| >= 2 && Acyclic(KeepingExit(g))
    ensures SourcesReachable(KeepingExit(g)) ==> NpathOf(KeepingExit(g)) >= CyclomaticOf(KeepingExit(g)) + 1
  {
    EntryIsolated(g);
    if SourcesReachable(KeepingExit(g)) {
      NpathExceeds(KeepingExit(g), {0});
    }
  }

  lemma DroppedDominates(g: Graph)
    requires WellFormed(g) && |g| >= 2 && Acyclic(DroppingExit(g))
    ensures SourcesReachable(DroppingExit(g)) ==>
      NpathOf(DroppingExit(g)) >= CyclomaticOf(DroppingExit(g)) + if |g| > 2 then 2 else 1
  {
    EntryIsolated(g);
    if SourcesReachable(DroppingExit(g)) {
      NpathExceeds(DroppingExit(g), if |g| > 2 then {0, |g| - 1} else {0});
    }
  }

  lemma ReachableBelow(g: Graph, missing: set<nat>)
    requires forall v :: v in missing ==> v < |g| && !Reaches(g, 1, v)
    ensures |Reachable(g, 1)| + |missing| <= |g|
  {
    var all := Reachable(g, 1) + missing;
    assert Reachable(g, 1) !! missing;
    SubsetSize(all, |g|);
  }
}
