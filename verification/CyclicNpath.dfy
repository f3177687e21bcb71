/** What the counter reports for block 1 of any flow graph, with or without loops: the number of
    paths of an acyclic graph in which each block's edges up to its last back edge are collapsed
    into a single exit. */
module CyclicNpath {
  import opened Graphs
  import opened Sums
  import opened DepthFirst
  import opened SearchTheory
  import opened WholeSearch
  import opened Paths

  /** The entry block as the analyser leaves it: no edges in or out. */
  ghost predicate Isolated(g: Graph, v: nat) {
    && v < |g| && g[v] == []
    && forall u :: 0 <= u < |g| ==> v !in g[u]
  }

  // ---------- later roots leave earlier trees alone

  lemma {:induction false} LaterRoot(g: Graph, s: Search, u: nat, x: nat)
    requires WellFormed(g) && Idle(g, s) && u < |g| && s.color[u].White?
    requires u == 0 || s.color[0].Black?
    requires x < |g| && s.color[x].Black?
    ensures var m := VisitVertex(g, s, u);
      s.order <= m.order && m.color[x].Black? && m.complexity[x] == s.complexity[x]
  {
    RootFrame(g, s, u);
    RootVisit(g, s, u);
  }

  /** Between two roots, with the blocks below k and block x done. */
  ghost predicate DoneUpTo(g: Graph, s: Search, k: nat, x: nat)
    requires k <= |g| && x < |g|
  {
    Idle(g, s) && Below(s.order, |g|) && s.color[x].Black? && forall y :: 0 <= y < k ==> s.color[y].Black?
  }

  lemma {:induction false} NextRoot(g: Graph, s: Search, k: nat, x: nat)
    requires WellFormed(g) && k < |g| && x < |g| && DoneUpTo(g, s, k, x)
    ensures var m := if s.color[k].White? then VisitVertex(g, s, k) else s;
      DoneUpTo(g, m, k + 1, x) && s.order <= m.order && m.complexity[x] == s.complexity[x]
  {
    if s.color[k].White? {
      RootCounted(g, s, k);
      LaterRoot(g, s, k, x);
    }
  }

  lemma {:induction false} LaterRoots(g: Graph, s: Search, k: nat, x: nat)
    requires WellFormed(g) && k <= |g| && x < |g| && DoneUpTo(g, s, k, x)
    ensures var r := VisitRoots(g, s, k); s.order <= r.order && r.complexity[x] == s.complexity[x]
    decreases |g| - k
  {
    if k < |g| {
      NextRoot(g, s, k, x);
      LaterRoots(g, if s.color[k].White? then VisitVertex(g, s, k) else s, k + 1, x);
    }
  }

  // ---------- the tree of block 1

  /** The tables after the entry block, which is a tree of its own. */
  function AfterEntry(g: Graph): (r: Search)
    requires WellFormed(g) && |g| >= 2
    ensures Fits(g, r)
  {
    VisitVertex(g, Start(|g|), 0)
  }

  lemma EntryVisited(g: Graph)
    requires WellFormed(g) && |g| >= 2 && Isolated(g, 0)
    ensures var s := AfterEntry(g);
      && Idle(g, s) && s.order == [0]
      && s.color == Start(|g|).color[0 := Black]
      && Run(g) == VisitRoots(g, s, 1)
  {
    StartIdle(g);
    RootFrame(g, Start(|g|), 0);
    var s2 := Discover(Start(|g|), 0);
    assert VisitEdges(g, s2, 0, 0) == s2;
  }

  /** The tables when block 1 has settled. */
  ghost function BlockOne(g: Graph): (r: Search)
    requires WellFormed(g) && |g| >= 2 && Isolated(g, 0)
    ensures Fits(g, r)
  {
    EntryVisited(g);
    Settled(g, AfterEntry(g), 1)
  }

  /** A self-loop on block 1 is its first out-edge, so block 1 becomes its own parent. */
  lemma SelfLoopParent(g: Graph, s: Search)
    requires WellFormed(g) && |g| >= 2 && Isolated(g, 0)
    requires Idle(g, s) && s.color[0].Black? && s.color[1].White?
    ensures var t := Settled(g, s, 1); (t.parent[1].defined && t.parent[1].parent == 1) <==> 1 in g[1]
  {
    RootVisit(g, s, 1);
    var s2 := Discover(s, 1);
    if 1 in g[1] {
      var j :| 0 <= j < |g[1]| && g[1][j] == 1;
      assert g[1][0] in g[1];
      assert g[1][0] == 1;
      var m := VisitEdge(g, s2, 1, 1);
      EdgeFrame(g, s2, 1, 1);
      EdgesFrame(g, m, 1, 1);
      assert m.parent[1] == Parent(true, 1);
      assert VisitEdges(g, s2, 1, 0) == VisitEdges(g, m, 1, 1);
    }
  }

  /** Block 1's reported value is its settled value, doubled when it loops to itself. */
  lemma ReportedValue(g: Graph)
    requires WellFormed(g) && |g| >= 2 && Isolated(g, 0)
    ensures var t := BlockOne(g);
      && Run(g).complexity[1] == (if 1 in g[1] then 2 else 1) * t.complexity[1]
      && t.order <= Run(g).order
      && Below(t.order, |g|) && Solved(g, t.order, t.complexity, 1)
      && |t.order| >= 2 && t.order[0] == 0 && t.order[|t.order| - 1] == 1
  {
    EntryVisited(g);
    var s := AfterEntry(g);
    var m := VisitVertex(g, s, 1);
    assert Idle(g, m) && Below(m.order, |g|) && (forall x :: 0 <= x < 2 ==> m.color[x].Black?) by {
      RootCounted(g, s, 1);
    }
    LaterRoots(g, m, 2, 1);
    assert m.complexity[1] == (if 1 in g[1] then 2 else 1) * BlockOne(g).complexity[1] by {
      SelfLoopParent(g, s);
    }
    RootFrame(g, s, 1);
    RootVisit(g, s, 1);
  }

  // ---------- collapsing back edges

  /** The number of successors up to and including the last one not yet done. */
  function LastBack(vs: seq<nat>, done: seq<nat>): (j: nat)
    ensures j <= |vs|
    ensures forall i :: j <= i < |vs| ==> vs[i] in done
    ensures j > 0 ==> vs[j - 1] !in done
  {
    if vs == [] then 0
    else if vs[|vs| - 1] !in done then |vs|
    else LastBack(vs[..|vs| - 1], done)
  }

  function CollapsedAt(vs: seq<nat>, done: seq<nat>, exit: nat): seq<nat> {
    var j := LastBack(vs, done);
    vs[j..] + if j > 0 then [exit] else []
  }

  /** The graph with one extra block, the exit |g|, in which each block keeps the out-edges after its
      last back edge and all the earlier ones are collapsed into one edge to the exit. */
  ghost function Collapsed(g: Graph, order: seq<nat>): (h: Graph)
    requires forall x: nat :: x < |g| ==> x in order
    ensures |h| == |g| + 1 && h[|g|] == []
    ensures forall u :: 0 <= u < |g| ==> h[u] == CollapsedAt(g[u], order[..Position(order, u)], |g|)
  {
    seq(|g|, u requires 0 <= u < |g| => CollapsedAt(g[u], order[..Position(order, u)], |g|)) + [[]]
  }

  lemma {:induction false} CollapsedAcyclic(g: Graph, order: seq<nat>)
    requires WellFormed(g) && Distinct(order) && forall x: nat :: x < |g| ==> x in order
    ensures WellFormed(Collapsed(g, order)) && Acyclic(Collapsed(g, order))
  {
    var h := Collapsed(g, order);
    var rank := seq(|h|, u requires 0 <= u < |h| => if u < |g| then Position(order, u) + 1 else 0);
    forall u: nat, v: nat | HasEdge(h, u, v) && v < |h|
      ensures rank[v] < rank[u]
    {
      if v < |g| {
        var done := order[..Position(order, u)];
        var i :| 0 <= i < |h[u]| && h[u][i] == v;
        assert g[u][LastBack(g[u], done) + i] == v;
        assert v in done;
      }
    }
    RankedIsAcyclic(h, rank);
  }

  lemma {:induction false} FoldAfterBacks(vs: seq<nat>, i: nat, done: seq<nat>, c: seq<nat>, acc: nat)
    requires i < LastBack(vs, done) && Below(vs, |c|)
    ensures Fold(vs, i, done, c, acc) == Fold(vs, LastBack(vs, done), done, c, 1)
    decreases |vs| - i
  {
    if i + 1 < LastBack(vs, done) {
      FoldAfterBacks(vs, i + 1, done, c, if vs[i] in done then acc + c[vs[i]] else 1);
    }
  }

  lemma {:induction false} FoldIsCollapsedCount(g: Graph, h: Graph, u: nat, i: nat, done: seq<nat>, c: seq<nat>,
                                                acc: nat)
    requires WellFormed(g) && WellFormed(h) && Acyclic(h) && |h| == |g| + 1 && h[|g|] == []
    requires u < |g| && |c| == |g| && h[u] == CollapsedAt(g[u], done, |g|)
    requires LastBack(g[u], done) <= i <= |g[u]|
    requires forall v :: v in g[u] && v in done ==> c[v] == PathCount(h, v)
    ensures var j := LastBack(g[u], done);
      Fold(g[u], i, done, c, acc) + (if j > 0 then 1 else 0) == acc + CountFrom(h, u, i - j)
    decreases |g[u]| - i
  {
    var j := LastBack(g[u], done);
    if i < |g[u]| {
      var v := g[u][i];
      assert h[u][i - j] == v && v in done && c[v] == PathCount(h, v);
      FoldIsCollapsedCount(g, h, u, i + 1, done, c, acc + c[v]);
      assert CountFrom(h, u, i - j) == PathCount(h, v) + CountFrom(h, u, i + 1 - j);
    } else if j > 0 {
      LastEdgeCounts(h, u, i - j, |g|);
    }
  }

  lemma {:induction false} LastEdgeCounts(h: Graph, u: nat, i: nat, exit: nat)
    requires WellFormed(h) && Acyclic(h) && u < |h| && |h[u]| == i + 1 && exit < |h| && h[u][i] == exit && h[exit] == []
    ensures CountFrom(h, u, i) == 1
  {
    assert CountFrom(h, u, i) == PathCount(h, exit) + CountFrom(h, u, i + 1);
  }

  /** One settled block: its value is the path count of the collapsed graph. */
  lemma BlockIsCollapsedCount(g: Graph, h: Graph, u: nat, done: seq<nat>, c: seq<nat>)
    requires WellFormed(g) && WellFormed(h) && Acyclic(h) && |h| == |g| + 1 && h[|g|] == []
    requires u < |g| && |c| == |g| && h[u] == CollapsedAt(g[u], done, |g|)
    requires c[u] == AtLeastOne(Fold(g[u], 0, done, c, 0))
    requires forall v :: v in g[u] && v in done ==> c[v] == PathCount(h, v)
    ensures c[u] == PathCount(h, u)
  {
    var j := LastBack(g[u], done);
    if j > 0 {
      FoldAfterBacks(g[u], 0, done, c, 0);
      FoldIsCollapsedCount(g, h, u, j, done, c, 1);
    } else {
      FoldIsCollapsedCount(g, h, u, 0, done, c, 0);
    }
  }

  /** h has the collapsed rows for the finish order of block 1's tree. */
  ghost predicate CollapsedAlong(g: Graph, h: Graph, tree: seq<nat>)
    requires Below(tree, |g|)
  {
    && WellFormed(h) && Acyclic(h) && |h| == |g| + 1 && h[|g|] == []
    && forall k :: 0 <= k < |tree| ==> h[tree[k]] == CollapsedAt(g[tree[k]], tree[..k], |g|)
  }

  lemma {:induction false} TreeCollapsed(g: Graph, order: seq<nat>, tree: seq<nat>)
    requires WellFormed(g) && Distinct(order) && forall x: nat :: x < |g| ==> x in order
    requires tree <= order && Below(tree, |g|)
    ensures CollapsedAlong(g, Collapsed(g, order), tree)
  {
    CollapsedAcyclic(g, order);
    forall k | 0 <= k < |tree|
      ensures Collapsed(g, order)[tree[k]] == CollapsedAt(g[tree[k]], tree[..k], |g|)
    {
      assert Position(order, tree[k]) == k;
      assert order[..k] == tree[..k];
    }
  }

  lemma {:induction false} TreeIsCollapsedCount(g: Graph, h: Graph, tree: seq<nat>, c: seq<nat>, k: nat)
    requires WellFormed(g) && |c| == |g| && Isolated(g, 0)
    requires Below(tree, |g|) && CollapsedAlong(g, h, tree) && Solved(g, tree, c, 1)
    requires 1 <= k < |tree| && tree[0] == 0
    ensures tree[k] < |h| && c[tree[k]] == PathCount(h, tree[k])
    decreases k
  {
    var u := tree[k];
    assert Equation(g, tree, c, k);
    forall v | v in g[u] && v in tree[..k]
      ensures c[v] == PathCount(h, v)
    {
      var m :| 0 <= m < k && tree[m] == v;
      TreeIsCollapsedCount(g, h, tree, c, m);
    }
    BlockIsCollapsedCount(g, h, u, tree[..k], c);
  }

  /** On every graph whose entry block has been cleared, the entry that the analyser reports is the
      path count of the collapsed graph, and twice that when block 1 has a self-loop. */
  lemma {:induction false} ReportedNpath(g: Graph)
    requires WellFormed(g) && |g| >= 2 && Isolated(g, 0)
    ensures Distinct(Run(g).order) && forall x: nat :: x < |g| ==> x in Run(g).order
    ensures var h := Collapsed(g, Run(g).order);
      && WellFormed(h) && Acyclic(h)
      && Run(g).complexity[1] == (if 1 in g[1] then 2 else 1) * PathCount(h, 1)
  {
    RunCounts(g);
    ReportedValue(g);
    var t := BlockOne(g);
    TreeCollapsed(g, Run(g).order, t.order);
    TreeIsCollapsedCount(g, Collapsed(g, Run(g).order), t.order, t.complexity, |t.order| - 1);
  }

  // ---------- loops whose back edges come first

  function Forward(vs: seq<nat>, done: seq<nat>): (r: seq<nat>)
    ensures |r| <= |vs|
  {
    if vs == [] then []
    else Forward(vs[..|vs| - 1], done) + if vs[|vs| - 1] in done then [vs[|vs| - 1]] else []
  }

  /** All back edges merged into one extra exit, every other edge kept. */
  function MergedAt(vs: seq<nat>, done: seq<nat>, exit: nat): seq<nat> {
    Forward(vs, done) + if LastBack(vs, done) > 0 then [exit] else []
  }

  ghost predicate BacksFirst(vs: seq<nat>, done: seq<nat>) {
    forall i, j :: 0 <= i < j < |vs| && vs[j] !in done ==> vs[i] !in done
  }

  lemma {:induction false} ForwardSplits(vs: seq<nat>, done: seq<nat>)
    ensures var j := LastBack(vs, done); Forward(vs, done) == Forward(vs[..j], done) + vs[j..]
  {
    var j := LastBack(vs, done);
    if j < |vs| {
      var front := vs[..|vs| - 1];
      ForwardSplits(front, done);
      assert front[..j] == vs[..j];
      assert vs[j..] == front[j..] + [vs[|vs| - 1]];
    } else {
      assert vs[..j] == vs;
    }
  }

  lemma {:induction false} ForwardEmpty(vs: seq<nat>, done: seq<nat>)
    ensures Forward(vs, done) == [] <==> forall i :: 0 <= i < |vs| ==> vs[i] !in done
  {
    if vs != [] {
      ForwardEmpty(vs[..|vs| - 1], done);
      assert forall i :: 0 <= i < |vs| - 1 ==> vs[..|vs| - 1][i] == vs[i];
    }
  }

  /** Collapsing equals merging exactly when the block's back edges precede its other edges. */
  lemma MergedIffBacksFirst(vs: seq<nat>, done: seq<nat>, exit: nat)
    ensures CollapsedAt(vs, done, exit) == MergedAt(vs, done, exit) <==> BacksFirst(vs, done)
  {
    var j := LastBack(vs, done);
    ForwardSplits(vs, done);
    ForwardEmpty(vs[..j], done);
    if Forward(vs[..j], done) == [] {
      assert forall i :: 0 <= i < j ==> vs[..j][i] == vs[i];
    } else {
      assert |MergedAt(vs, done, exit)| > |CollapsedAt(vs, done, exit)|;
      var i :| 0 <= i < j && vs[..j][i] in done;
      assert vs[i] in done && vs[j - 1] !in done;
    }
  }

  /** The graph with one extra block, the exit |g|, to which each block's back edges are merged. */
  ghost function Merged(g: Graph, order: seq<nat>): (h: Graph)
    requires forall x: nat :: x < |g| ==> x in order
    ensures |h| == |g| + 1 && h[|g|] == []
    ensures forall u :: 0 <= u < |g| ==> h[u] == MergedAt(g[u], order[..Position(order, u)], |g|)
  {
    seq(|g|, u requires 0 <= u < |g| => MergedAt(g[u], order[..Position(order, u)], |g|)) + [[]]
  }

  ghost predicate BacksFirstEverywhere(g: Graph, order: seq<nat>)
    requires forall x: nat :: x < |g| ==> x in order
  {
    forall u :: 0 <= u < |g| ==> BacksFirst(g[u], order[..Position(order, u)])
  }

  lemma MergedIffBacksFirstEverywhere(g: Graph, order: seq<nat>)
    requires forall x: nat :: x < |g| ==> x in order
    ensures Collapsed(g, order) == Merged(g, order) <==> BacksFirstEverywhere(g, order)
  {
    var c, m := Collapsed(g, order), Merged(g, order);
    forall u | 0 <= u < |g|
      ensures c[u] == m[u] <==> BacksFirst(g[u], order[..Position(order, u)])
    {
      MergedIffBacksFirst(g[u], order[..Position(order, u)], |g|);
    }
    if BacksFirstEverywhere(g, order) {
      assert forall u :: 0 <= u < |c| ==> c[u] == m[u];
    }
  }

  /** When every block's back edges come before its other edges, block 1's value is the path count of
      the graph in which they are merged into one extra exit, and twice that with a self-loop. */
  lemma MergedNpath(g: Graph)
    requires WellFormed(g) && |g| >= 2 && Isolated(g, 0)
    requires forall x: nat :: x < |g| ==> x in Run(g).order
    requires BacksFirstEverywhere(g, Run(g).order)
    ensures var h := Merged(g, Run(g).order);
      && WellFormed(h) && Acyclic(h)
      && Run(g).complexity[1] == (if 1 in g[1] then 2 else 1) * PathCount(h, 1)
  {
    MergedIffBacksFirstEverywhere(g, Run(g).order);
    ReportedNpath(g);
  }
}
