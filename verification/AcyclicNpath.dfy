/** On acyclic flow graphs the one-pass counter computes the number of execution paths, within
    2^(n-2). */
module AcyclicNpath {
  import opened Graphs
  import opened Sums
  import opened DepthFirst
  import opened SearchTheory
  import opened WholeSearch
  import opened Paths

  // ---------- the counter counts paths

  lemma {:induction false} FoldIsCount(g: Graph, w: nat, i: nat, done: seq<nat>, c: seq<nat>, acc: nat)
    requires WellFormed(g) && Acyclic(g) && w < |g| && i <= |g[w]| && |c| == |g|
    requires forall j :: i <= j < |g[w]| ==> g[w][j] in done && c[g[w][j]] == PathCount(g, g[w][j])
    ensures Fold(g[w], i, done, c, acc) == acc + CountFrom(g, w, i)
    decreases |g[w]| - i
  {
    if i < |g[w]| {
      FoldIsCount(g, w, i + 1, done, c, acc + c[g[w][i]]);
    }
  }

  lemma {:induction false} SolutionIsCount(g: Graph, order: seq<nat>, c: seq<nat>, k: nat)
    requires WellFormed(g) && Acyclic(g) && |c| == |g| && Below(order, |g|)
    requires Solved(g, order, c, 0) && Topological(g, order) && k < |order|
    ensures c[order[k]] == PathCount(g, order[k])
    decreases k
  {
    var w := order[k];
    assert Equation(g, order, c, k);
    forall j | 0 <= j < |g[w]|
      ensures g[w][j] in order[..k] && c[g[w][j]] == PathCount(g, g[w][j])
    {
      assert g[w][j] in g[w];
      var m :| 0 <= m < k && order[m] == g[w][j];
      SolutionIsCount(g, order, c, m);
    }
    FoldIsCount(g, w, 0, order[..k], c, 0);
  }

  /** After one pass over an acyclic graph every block's entry is the number of maximal paths from
      that block: those that end in a block without successors. */
  lemma NpathCountsPaths(g: Graph, u: nat)
    requires WellFormed(g) && Acyclic(g) && u < |g|
    ensures Run(g).complexity[u] == |MaximalPaths(g, u)| == PathCount(g, u)
    ensures forall p :: p in MaximalPaths(g, u) <==> IsMaximalPath(g, u, p)
  {
    AcyclicRun(g);
    var r := Run(g);
    SolutionIsCount(g, r.order, r.complexity, Position(r.order, u));
    PathCountIsSize(g, u);
    forall p
      ensures p in MaximalPaths(g, u) <==> IsMaximalPath(g, u, p)
    {
      MaximalPathsExact(g, u, p);
    }
  }

  // ---------- how large the entries get

  function Pow2(n: nat): (r: nat)
    ensures r >= 1
  {
    if n == 0 then 1 else 2 * Pow2(n - 1)
  }

  lemma {:induction false} Pow2Monotone(m: nat, n: nat)
    requires m <= n
    ensures Pow2(m) <= Pow2(n)
  {
    if m < n {
      Pow2Monotone(m, n - 1);
    }
  }

  lemma {:induction false} FoldIsSum(vs: seq<nat>, i: nat, done: seq<nat>, c: seq<nat>, acc: nat)
    requires i <= |vs| && Below(vs, |c|)
    requires forall j :: 0 <= j < |vs| ==> vs[j] in done
    requires acc == SumAt(c, vs[..i])
    ensures Fold(vs, i, done, c, acc) == SumAt(c, vs)
    decreases |vs| - i
  {
    if i < |vs| {
      assert vs[..i + 1][..i] == vs[..i];
      FoldIsSum(vs, i + 1, done, c, acc + c[vs[i]]);
    } else {
      assert vs[..i] == vs;
    }
  }

  /** The value of the k-th finished block is at most the sum of the values finished before it. */
  lemma ValueBelowPrefix(g: Graph, order: seq<nat>, c: seq<nat>, k: nat)
    requires WellFormed(g) && |c| == |g| && Below(order, |g|)
    requires Solved(g, order, c, 0) && Topological(g, order) && k < |order|
    ensures Below(order[..k], |c|)
    ensures c[order[k]] <= AtLeastOne(SumAt(c, order[..k]))
  {
    var w := order[k];
    assert Equation(g, order, c, k);
    forall j | 0 <= j < |g[w]|
      ensures g[w][j] in order[..k]
    {
      assert g[w][j] in g[w];
    }
    assert g[w][..0] == [];
    FoldIsSum(g[w], 0, order[..k], c, 0);
    assert Distinct(g[w]);
    SumContained(c, g[w], order[..k]);
  }

  /** Counting finishes from 0, the k-th finished block has at most 2^(k-1) paths, the 0-th one. */
  lemma {:induction false} PrefixBound(g: Graph, order: seq<nat>, c: seq<nat>, k: nat)
    requires WellFormed(g) && |c| == |g| && Below(order, |g|)
    requires Solved(g, order, c, 0) && Topological(g, order) && k < |order|
    ensures Below(order[..k + 1], |c|) && SumAt(c, order[..k + 1]) <= Pow2(k)
    ensures c[order[k]] <= if k == 0 then 1 else Pow2(k - 1)
    decreases k
  {
    ValueBelowPrefix(g, order, c, k);
    assert order[..k + 1][..k] == order[..k];
    if k != 0 {
      PrefixBound(g, order, c, k - 1);
    }
  }

  lemma SolutionBound(g: Graph, order: seq<nat>, c: seq<nat>, u: nat)
    requires WellFormed(g) && |c| == |g| && Below(order, |g|)
    requires Solved(g, order, c, 0) && Topological(g, order)
    requires |order| == |g| >= 2 && u < |g|
    ensures c[u] <= Pow2(|g| - 2)
  {
    var k := Position(order, u);
    PrefixBound(g, order, c, k);
    if k > 0 {
      Pow2Monotone(k - 1, |g| - 2);
    }
  }

  /** In an acyclic graph of n >= 2 blocks every final entry is at most 2^(n-2). */
  lemma {:induction false} NpathBound(g: Graph, u: nat)
    requires WellFormed(g) && Acyclic(g) && u < |g| && |g| >= 2
    ensures Run(g).complexity[u] <= Pow2(|g| - 2)
  {
    AcyclicRun(g);
    RunCounts(g);
    SolutionBound(g, Run(g).order, Run(g).complexity, u);
  }

  // ---------- entries only grow during an acyclic search, so no intermediate value exceeds the bound

  ghost predicate Grows(s: Search, r: Search) {
    |s.complexity| == |r.complexity| && forall x :: 0 <= x < |s.complexity| ==> s.complexity[x] <= r.complexity[x]
  }

  lemma {:induction false} EdgeGrows(g: Graph, s: Search, u: nat, v: nat)
    requires WellFormed(g) && Acyclic(g) && Tidy(g, s) && u < |g| && v in g[u]
    requires s.color[u].Grey? && !s.color[0].White?
    requires AllReach(g, s, u)
    ensures Grows(s, VisitEdge(g, s, u, v))
  {
    assert HasEdge(g, u, v) && !OnCycle(g, v);
    EdgeFrame(g, s, u, v);
    EdgeValue(g, s, u, v);
  }

  lemma {:induction false} EdgesGrow(g: Graph, s: Search, u: nat, i: nat)
    requires WellFormed(g) && Acyclic(g) && Tidy(g, s) && u < |g| && i <= |g[u]|
    requires s.color[u].Grey? && !s.color[0].White?
    requires AllReach(g, s, u)
    ensures Grows(s, VisitEdges(g, s, u, i))
    decreases |g[u]| - i
  {
    if i < |g[u]| {
      EdgeGrows(g, s, u, g[u][i]);
      EdgeFrame(g, s, u, g[u][i]);
      EdgesGrow(g, VisitEdge(g, s, u, g[u][i]), u, i + 1);
    }
  }

  lemma {:induction false} RootGrows(g: Graph, s: Search, u: nat)
    requires WellFormed(g) && Idle(g, s) && u < |g| && s.color[u].White?
    requires u == 0 || s.color[0].Black?
    ensures Grows(s, VisitVertex(g, s, u))
  {
    var t := Settled(g, s, u);
    assert VisitVertex(g, s, u) == Credit(t, u) && Idle(g, t) by {
      RootFrame(g, s, u);
    }
    assert forall x :: 0 <= x < |g| && s.color[x].Black? ==> t.complexity[x] == s.complexity[x] by {
      RootFrame(g, s, u);
    }
    assert Grows(s, t);
  }

  lemma {:induction false} RootsGrow(g: Graph, s: Search, k: nat)
    requires WellFormed(g) && Idle(g, s) && k <= |g| && Below(s.order, |g|)
    requires forall x :: 0 <= x < k ==> s.color[x].Black?
    ensures Grows(s, VisitRoots(g, s, k))
    decreases |g| - k
  {
    if k < |g| && s.color[k].White? {
      RootCounted(g, s, k);
      RootGrows(g, s, k);
      RootsGrow(g, VisitVertex(g, s, k), k + 1);
    } else if k < |g| {
      RootsGrow(g, s, k + 1);
    }
  }

  // ---------- the complete acyclic graph attains the bound

  function Above(u: nat, n: nat): (r: seq<nat>)
    requires u < n
    ensures |r| == n - u - 1 && forall i :: 0 <= i < |r| ==> r[i] == u + 1 + i
  {
    seq(n - u - 1, i requires 0 <= i < n - u - 1 => u + 1 + i)
  }

  function CompleteDag(n: nat): (g: Graph)
    ensures |g| == n && forall u :: 0 <= u < n ==> g[u] == Above(u, n)
  {
    seq(n, u requires 0 <= u < n => Above(u, n))
  }

  lemma CompleteDagAcyclic(n: nat)
    ensures WellFormed(CompleteDag(n)) && Acyclic(CompleteDag(n))
  {
    var g := CompleteDag(n);
    var rank := seq(n, u requires 0 <= u < n => n - u);
    forall u: nat, v: nat | HasEdge(g, u, v) && v < |g|
      ensures rank[v] < rank[u]
    {
      assert v > u;
    }
    RankedIsAcyclic(g, rank);
  }

  lemma {:induction false} CompleteCountFrom(n: nat, u: nat, i: nat)
    requires WellFormed(CompleteDag(n)) && Acyclic(CompleteDag(n)) && u + 1 + i < n
    ensures CountFrom(CompleteDag(n), u, i) == Pow2(n - u - 2 - i)
    decreases n - u, n - i
  {
    var g := CompleteDag(n);
    CompletePathCount(n, u + 1 + i);
    if u + 2 + i < n {
      CompleteCountFrom(n, u, i + 1);
    } else {
      assert CountFrom(g, u, i + 1) == 0;
    }
  }

  lemma {:induction false} CompletePathCount(n: nat, u: nat)
    requires WellFormed(CompleteDag(n)) && Acyclic(CompleteDag(n)) && u < n
    ensures PathCount(CompleteDag(n), u) == if u == n - 1 then 1 else Pow2(n - 2 - u)
    decreases n - u, n + 1
  {
    if u < n - 1 {
      CompleteCountFrom(n, u, 0);
    }
  }

  lemma NpathBoundAttained(n: nat)
    requires n >= 2
    ensures WellFormed(CompleteDag(n)) && Acyclic(CompleteDag(n))
    ensures Run(CompleteDag(n)).complexity[0] == Pow2(n - 2)
  {
    CompleteDagAcyclic(n);
    NpathCountsPaths(CompleteDag(n), 0);
    CompletePathCount(n, 0);
  }

  /** A single block has one path, any other number of blocks n at most 2^(n-2) paths. */
  lemma NpathWithin64(g: Graph, u: nat)
    requires WellFormed(g) && Acyclic(g) && u < |g| <= 64
    ensures Run(g).complexity[u] <= Pow2(62)
  {
    if |g| == 1 {
      AcyclicRun(g);
      RunCounts(g);
      var r := Run(g);
      PrefixBound(g, r.order, r.complexity, Position(r.order, u));
    } else {
      NpathBound(g, u);
      Pow2Monotone(|g| - 2, 62);
    }
  }

  lemma Pow2At62()
    ensures Pow2(62) == 0x4000_0000_0000_0000
  {
    assert Pow2(8) == 256;
    assert Pow2(16) == 0x1_0000;
    assert Pow2(24) == 0x100_0000;
    assert Pow2(32) == 0x1_0000_0000;
    assert Pow2(40) == 0x100_0000_0000;
    assert Pow2(48) == 0x1_0000_0000_0000;
    assert Pow2(56) == 0x100_0000_0000_0000;
  }
}
