/** Execution paths of an acyclic flow graph: the paths themselves, their number by recursion over
    successors, and the agreement of the two. */
module Paths {
  import opened Graphs
  import opened WholeSearch

  ghost function RankOf(g: Graph): (rank: seq<nat>)
    requires WellFormed(g) && Acyclic(g)
    ensures Ranked(g, rank)
  {
    AcyclicIsRanked(g);
    var rank :| Ranked(g, rank);
    rank
  }

  lemma ClearedAcyclic(g: Graph, v: nat)
    requires WellFormed(g) && Acyclic(g)
    ensures WellFormed(Cleared(g, v)) && Acyclic(Cleared(g, v))
  {
    var h := Cleared(g, v);
    ClearedWellFormed(g, v);
    forall x: nat, y: nat | HasEdge(h, x, y) && y < |h|
      ensures RankOf(g)[y] < RankOf(g)[x]
    {
      ClearedEdges(g, v, x, y);
    }
    assert Ranked(h, RankOf(g));
    RankedIsAcyclic(h, RankOf(g));
  }

  // ---------- counting

  ghost function PathCount(g: Graph, u: nat): (r: nat)
    requires WellFormed(g) && Acyclic(g) && u < |g|
    ensures r >= 1
    decreases RankOf(g)[u], |g[u]| + 1
  {
    if g[u] == [] then 1 else CountFrom(g, u, 0)
  }

  /** The paths from u that start with its i-th out-edge or a later one. */
  ghost function CountFrom(g: Graph, u: nat, i: nat): (r: nat)
    requires WellFormed(g) && Acyclic(g) && u < |g| && i <= |g[u]|
    ensures r >= |g[u]| - i
    decreases RankOf(g)[u], |g[u]| - i
  {
    if i == |g[u]| then 0
    else
      assert HasEdge(g, u, g[u][i]);
      PathCount(g, g[u][i]) + CountFrom(g, u, i + 1)
  }

  // ---------- the paths

  /** A path from u that ends in a block without successors. */
  ghost predicate IsMaximalPath(g: Graph, u: nat, p: seq<nat>) {
    Walk(g, p) && p[0] == u && p[|p| - 1] < |g| && g[p[|p| - 1]] == []
  }

  ghost function Prefixed(u: nat, paths: set<seq<nat>>): set<seq<nat>> {
    set p | p in paths :: [u] + p
  }

  ghost function MaximalPaths(g: Graph, u: nat): set<seq<nat>>
    requires WellFormed(g) && Acyclic(g) && u < |g|
    decreases RankOf(g)[u], |g[u]| + 1
  {
    if g[u] == [] then {[u]} else PathsFrom(g, u, 0)
  }

  ghost function PathsFrom(g: Graph, u: nat, i: nat): set<seq<nat>>
    requires WellFormed(g) && Acyclic(g) && u < |g| && i <= |g[u]|
    decreases RankOf(g)[u], |g[u]| - i
  {
    if i == |g[u]| then {}
    else
      assert HasEdge(g, u, g[u][i]);
      Prefixed(u, MaximalPaths(g, g[u][i])) + PathsFrom(g, u, i + 1)
  }

  lemma {:induction false} MaximalPathsExact(g: Graph, u: nat, p: seq<nat>)
    requires WellFormed(g) && Acyclic(g) && u < |g|
    ensures p in MaximalPaths(g, u) <==> IsMaximalPath(g, u, p)
    decreases RankOf(g)[u], |g[u]| + 1
  {
    if g[u] != [] {
      PathsFromExact(g, u, 0, p);
    } else if IsMaximalPath(g, u, p) {
      assert p == [u];
    }
  }

  lemma {:induction false} PathsFromExact(g: Graph, u: nat, i: nat, p: seq<nat>)
    requires WellFormed(g) && Acyclic(g) && u < |g| && i <= |g[u]|
    ensures p in PathsFrom(g, u, i) <==>
      IsMaximalPath(g, u, p) && |p| > 1 && exists j :: i <= j < |g[u]| && g[u][j] == p[1]
    decreases RankOf(g)[u], |g[u]| - i
  {
    if i < |g[u]| {
      var v := g[u][i];
      assert HasEdge(g, u, v);
      PathsFromExact(g, u, i + 1, p);
      if p in Prefixed(u, MaximalPaths(g, v)) {
        var q :| q in MaximalPaths(g, v) && p == [u] + q;
        MaximalPathsExact(g, v, q);
        assert p[1..] == q;
      }
      if IsMaximalPath(g, u, p) && |p| > 1 && p[1] == v {
        var q := p[1..];
        MaximalPathsExact(g, v, q);
        assert p == [u] + q;
      }
    }
  }

  lemma {:induction false} PrefixedSize(u: nat, paths: set<seq<nat>>)
    ensures |Prefixed(u, paths)| == |paths|
    decreases |paths|
  {
    if paths == {} {
      assert Prefixed(u, paths) == {};
    } else {
      var p :| p in paths;
      var rest := paths - {p};
      PrefixedSize(u, rest);
      assert ([u] + p)[1..] == p;
      forall q | q in rest
        ensures [u] + q != [u] + p
      {
        assert ([u] + q)[1..] == q;
      }
      assert Prefixed(u, paths) == Prefixed(u, rest) + {[u] + p};
    }
  }

  /** PathCount counts the maximal paths. */
  lemma {:induction false} PathCountIsSize(g: Graph, u: nat)
    requires WellFormed(g) && Acyclic(g) && u < |g|
    ensures PathCount(g, u) == |MaximalPaths(g, u)|
    decreases RankOf(g)[u], |g[u]| + 1
  {
    if g[u] != [] {
      CountFromIsSize(g, u, 0);
    }
  }

  lemma {:induction false} CountFromIsSize(g: Graph, u: nat, i: nat)
    requires WellFormed(g) && Acyclic(g) && u < |g| && i <= |g[u]|
    ensures CountFrom(g, u, i) == |PathsFrom(g, u, i)|
    decreases RankOf(g)[u], |g[u]| - i
  {
    if i < |g[u]| {
      var v := g[u][i];
      assert HasEdge(g, u, v);
      PathCountIsSize(g, v);
      PrefixedSize(u, MaximalPaths(g, v));
      CountFromIsSize(g, u, i + 1);
      var first := Prefixed(u, MaximalPaths(g, v));
      forall p | p in first
        ensures p !in PathsFrom(g, u, i + 1)
      {
        var q :| q in MaximalPaths(g, v) && p == [u] + q;
        MaximalPathsExact(g, v, q);
        PathsFromExact(g, u, i + 1, p);
      }
      assert first !! PathsFrom(g, u, i + 1);
    }
  }
}
