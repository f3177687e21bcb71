/** Control-flow graphs as the adjacency list of graph.hpp presents them: block u's successors are
    g[u], without duplicates and in ascending order of target. */
module Graphs {

  type Graph = seq<seq<nat>>

  predicate Ascending(s: seq<nat>) {
    forall i, j :: 0 <= i < j < |s| ==> s[i] < s[j]
  }

  predicate Below(s: seq<nat>, n: nat) {
    forall i :: 0 <= i < |s| ==> s[i] < n
  }

  ghost predicate WellFormed(g: Graph) {
    forall u :: 0 <= u < |g| ==> Ascending(g[u]) && Below(g[u], |g|)
  }

  /** A flow graph that is well-formed. */
  type Flow = g: Graph | WellFormed(g) witness []

  ghost predicate HasEdge(g: Graph, u: nat, v: nat) {
    u < |g| && v in g[u]
  }

  /** The number of edges that leave the first k blocks; OutEdges(g, |g|) is num_edges. */
  function OutEdges(g: Graph, k: nat): nat
    requires k <= |g|
  {
    if k == 0 then 0 else OutEdges(g, k - 1) + |g[k - 1]|
  }

  function NumEdges(g: Graph): nat {
    OutEdges(g, |g|)
  }

  // ---------- edge insertion and clear_vertex

  /** Insert v into an ascending successor list; an edge that is already there stays single. */
  function Insert(s: seq<nat>, v: nat): (r: seq<nat>)
    requires Ascending(s)
    ensures Ascending(r)
    ensures forall x :: x in r <==> x in s || x == v
  {
    if s == [] then [v]
    else if v < s[0] then [v] + s
    else if v == s[0] then s
    else
      assert s == [s[0]] + s[1..];
      var t := Insert(s[1..], v);
      assert forall i :: 0 <= i < |t| ==> t[i] in t && s[0] < t[i];
      [s[0]] + t
  }

  function Widen(g: Graph, n: nat): (r: Graph)
    ensures |r| == if n <= |g| then |g| else n
    ensures forall u :: 0 <= u < |r| ==> r[u] == if u < |g| then g[u] else []
  {
    if n <= |g| then g else g + seq(n - |g|, _ => [])
  }

  function Max(a: nat, b: nat): nat {
    if a < b then b else a
  }

  /** add_edge on vector-indexed vertices: the vertex set grows to hold both ends. */
  function WithEdge(g: Graph, u: nat, v: nat): (r: Graph)
    requires WellFormed(g)
    ensures WellFormed(r)
  {
    var w := Widen(g, Max(u, v) + 1);
    var t := Insert(w[u], v);
    assert Below(t, |w|) by {
      assert forall i :: 0 <= i < |t| ==> t[i] in t && (t[i] in w[u] || t[i] == v);
    }
    w[u := t]
  }

  lemma WithEdgeExact(g: Graph, u: nat, v: nat)
    requires WellFormed(g)
    ensures |WithEdge(g, u, v)| == Max(|g|, Max(u, v) + 1)
    ensures forall x: nat, y: nat ::
      HasEdge(WithEdge(g, u, v), x, y) <==> HasEdge(g, x, y) || (x == u && y == v)
  {
  }

  function Without(s: seq<nat>, v: nat): (r: seq<nat>)
    requires Ascending(s)
    ensures forall x :: x in r <==> x in s && x != v
    ensures Ascending(r) && |r| <= |s|
  {
    if s == [] then []
    else
      var front, last := s[..|s| - 1], s[|s| - 1];
      assert s == front + [last];
      if last == v then front
      else
        var t := Without(front, v);
        assert forall i :: 0 <= i < |t| ==> t[i] in t && t[i] < last;
        t + [last]
  }

  lemma {:induction false} WithoutAbsent(s: seq<nat>, v: nat)
    requires Ascending(s) && v !in s
    ensures Without(s, v) == s
  {
    if s != [] {
      WithoutAbsent(s[..|s| - 1], v);
      assert s == s[..|s| - 1] + [s[|s| - 1]];
    }
  }

  /** clear_vertex: drop every edge into and out of v, keep the vertex itself. */
  function Cleared(g: Graph, v: nat): (r: Graph)
    requires WellFormed(g)
    ensures |r| == |g|
    ensures forall u :: 0 <= u < |g| ==> r[u] == if u == v then [] else Without(g[u], v)
  {
    seq(|g|, u requires 0 <= u < |g| => if u == v then [] else Without(g[u], v))
  }

  lemma ClearedWellFormed(g: Graph, v: nat)
    requires WellFormed(g)
    ensures WellFormed(Cleared(g, v))
  {
    var r := Cleared(g, v);
    forall u | 0 <= u < |r|
      ensures Ascending(r[u]) && Below(r[u], |r|)
    {
      forall i | 0 <= i < |r[u]|
        ensures r[u][i] < |r|
      {
        assert r[u][i] in r[u];
        assert r[u][i] in g[u];
      }
    }
  }

  lemma ClearedEdges(g: Graph, v: nat, x: nat, y: nat)
    requires WellFormed(g)
    ensures HasEdge(Cleared(g, v), x, y) <==> HasEdge(g, x, y) && x != v && y != v
  {
    if x < |g| {
      assert Cleared(g, v)[x] == if x == v then [] else Without(g[x], v);
    }
  }

  lemma {:induction false} OutEdgesMonotone(g: Graph, h: Graph, k: nat)
    requires |g| == |h| && k <= |g|
    requires forall u :: 0 <= u < |g| ==> |h[u]| <= |g[u]|
    ensures OutEdges(h, k) <= OutEdges(g, k)
  {
    if k != 0 {
      OutEdgesMonotone(g, h, k - 1);
    }
  }

  // ---------- walks, reachability, acyclicity

  ghost predicate Walk(g: Graph, p: seq<nat>) {
    && p != []
    && p[0] < |g|
    && (|p| == 1 || (HasEdge(g, p[0], p[1]) && Walk(g, p[1..])))
  }

  ghost predicate Reaches(g: Graph, u: nat, v: nat) {
    exists p :: Walk(g, p) && p[0] == u && p[|p| - 1] == v
  }

  /** There is a closed walk of at least one edge through v. */
  ghost predicate OnCycle(g: Graph, v: nat) {
    exists w: nat :: HasEdge(g, w, v) && Reaches(g, v, w)
  }

  ghost predicate Acyclic(g: Graph) {
    forall v: nat :: !OnCycle(g, v)
  }

  /** A ranking of the blocks that strictly falls along every edge. */
  ghost predicate Ranked(g: Graph, rank: seq<nat>) {
    && |rank| == |g|
    && forall u: nat, v: nat :: HasEdge(g, u, v) && v < |g| ==> rank[v] < rank[u]
  }

  lemma ReachesSelf(g: Graph, u: nat)
    requires u < |g|
    ensures Reaches(g, u, u)
  {
    assert Walk(g, [u]);
  }

  lemma {:induction false} WalkSnoc(g: Graph, p: seq<nat>, w: nat)
    requires Walk(g, p) && HasEdge(g, p[|p| - 1], w) && w < |g|
    ensures Walk(g, p + [w])
  {
    var q := p + [w];
    if |p| == 1 {
      assert q[1..] == [w];
    } else {
      WalkSnoc(g, p[1..], w);
      assert q[1..] == p[1..] + [w];
    }
  }

  lemma ReachesEdge(g: Graph, u: nat, v: nat, w: nat)
    requires Reaches(g, u, v) && HasEdge(g, v, w) && w < |g|
    ensures Reaches(g, u, w)
  {
    var p :| Walk(g, p) && p[0] == u && p[|p| - 1] == v;
    WalkSnoc(g, p, w);
    var q := p + [w];
    assert q[0] == u && q[|q| - 1] == w;
  }

  lemma EdgeReaches(g: Graph, u: nat, v: nat, w: nat)
    requires HasEdge(g, u, v) && Reaches(g, v, w)
    ensures Reaches(g, u, w)
  {
    var p :| Walk(g, p) && p[0] == v && p[|p| - 1] == w;
    var q := [u] + p;
    assert q[1..] == p;
    assert Walk(g, q);
  }

  /** The first step of a walk: either it is empty or it goes through a successor. */
  lemma ReachesStep(g: Graph, u: nat, w: nat)
    requires Reaches(g, u, w)
    ensures u < |g|
    ensures u == w || exists v: nat :: HasEdge(g, u, v) && Reaches(g, v, w)
  {
    var p :| Walk(g, p) && p[0] == u && p[|p| - 1] == w;
    if |p| > 1 {
      var q := p[1..];
      assert Walk(g, q) && q[0] == p[1] && q[|q| - 1] == w;
      assert HasEdge(g, u, q[0]) && Reaches(g, q[0], w);
    }
  }

  lemma {:induction false} WalkFalls(g: Graph, rank: seq<nat>, p: seq<nat>)
    requires Ranked(g, rank) && Walk(g, p)
    requires WellFormed(g)
    ensures p[|p| - 1] < |g| && rank[p[|p| - 1]] <= rank[p[0]]
  {
    if |p| > 1 {
      WalkFalls(g, rank, p[1..]);
    }
  }

  lemma RankedIsAcyclic(g: Graph, rank: seq<nat>)
    requires WellFormed(g) && Ranked(g, rank)
    ensures Acyclic(g)
  {
    forall v: nat
      ensures !OnCycle(g, v)
    {
      if OnCycle(g, v) {
        var w: nat :| HasEdge(g, w, v) && Reaches(g, v, w);
        var p :| Walk(g, p) && p[0] == v && p[|p| - 1] == w;
        WalkFalls(g, rank, p);
        assert false;
      }
    }
  }
}
