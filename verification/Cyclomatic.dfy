/** NPATH dominates the cyclomatic number on acyclic graphs. */
module Cyclomatic {
  import opened Graphs
  import opened Sums
  import opened Paths

  // ---------- sums over a set of blocks

  /** The weights of the blocks of S among the first n. */
  ghost function SumIn(w: seq<nat>, S: set<nat>, n: nat): nat
    requires n <= |w|
  {
    if n == 0 then 0 else SumIn(w, S, n - 1) + if n - 1 in S then w[n - 1] else 0
  }

  lemma {:induction false} SumInUnion(w: seq<nat>, S: set<nat>, T: set<nat>, n: nat)
    requires n <= |w|
    ensures SumIn(w, S + T, n) <= SumIn(w, S, n) + SumIn(w, T, n)
  {
    if n != 0 {
      SumInUnion(w, S, T, n - 1);
    }
  }

  lemma {:induction false} SumInSingle(w: seq<nat>, u: nat, n: nat)
    requires n <= |w|
    ensures SumIn(w, {u}, n) == if u < n then w[u] else 0
  {
    if n != 0 {
      SumInSingle(w, u, n - 1);
    }
  }

  lemma {:induction false} SumInEmpty(w: seq<nat>, n: nat)
    requires n <= |w|
    ensures SumIn(w, {}, n) == 0
  {
    if n != 0 {
      SumInEmpty(w, n - 1);
    }
  }

  // ---------- the reachable part

  ghost function Reachable(g: Graph, u: nat): set<nat> {
    set v: nat | v < |g| && Reaches(g, u, v)
  }

  ghost function ReachableFrom(g: Graph, u: nat, i: nat): set<nat>
    requires u < |g| && i <= |g[u]|
    decreases |g[u]| - i
  {
    if i == |g[u]| then {} else Reachable(g, g[u][i]) + ReachableFrom(g, u, i + 1)
  }

  lemma {:induction false} InReachableFrom(g: Graph, u: nat, i: nat, j: nat, x: nat)
    requires u < |g| && i <= j < |g[u]| && x in Reachable(g, g[u][j])
    ensures x in ReachableFrom(g, u, i)
    decreases |g[u]| - i
  {
    if i < j {
      InReachableFrom(g, u, i + 1, j, x);
    }
  }

  lemma {:induction false} ReachableSplits(g: Graph, u: nat)
    requires WellFormed(g) && u < |g|
    ensures Reachable(g, u) <= {u} + ReachableFrom(g, u, 0)
  {
    forall x | x in Reachable(g, u) && x != u
      ensures x in ReachableFrom(g, u, 0)
    {
      ReachesStep(g, u, x);
      var v: nat :| HasEdge(g, u, v) && Reaches(g, v, x);
      var j :| 0 <= j < |g[u]| && g[u][j] == v;
      InReachableFrom(g, u, 0, j, x);
    }
  }

  /** What a block adds to the path count beyond one path: its out-degree less one. */
  function Branching(g: Graph): (r: seq<nat>)
    ensures |r| == |g| && forall u :: 0 <= u < |g| ==> r[u] == if g[u] == [] then 0 else |g[u]| - 1
  {
    seq(|g|, u requires 0 <= u < |g| => if g[u] == [] then 0 else |g[u]| - 1)
  }

  lemma {:induction false} SumInMonotone(w: seq<nat>, S: set<nat>, T: set<nat>, n: nat)
    requires n <= |w| && S <= T
    ensures SumIn(w, S, n) <= SumIn(w, T, n)
  {
    if n != 0 {
      SumInMonotone(w, S, T, n - 1);
    }
  }

  lemma {:induction false} PathsExceedBranching(g: Graph, u: nat)
    requires WellFormed(g) && Acyclic(g) && u < |g|
    ensures PathCount(g, u) >= 1 + SumIn(Branching(g), Reachable(g, u), |g|)
    decreases RankOf(g)[u], |g[u]| + 1
  {
    var w, n := Branching(g), |g|;
    ReachableSplits(g, u);
    var rest := ReachableFrom(g, u, 0);
    SumInMonotone(w, Reachable(g, u), {u} + rest, n);
    SumInUnion(w, {u}, rest, n);
    SumInSingle(w, u, n);
    if g[u] == [] {
      SumInEmpty(w, n);
    } else {
      CountExceedsBranching(g, u, 0);
    }
  }

  lemma {:induction false} CountExceedsBranching(g: Graph, u: nat, i: nat)
    requires WellFormed(g) && Acyclic(g) && u < |g| && i <= |g[u]|
    ensures CountFrom(g, u, i) >= |g[u]| - i + SumIn(Branching(g), ReachableFrom(g, u, i), |g|)
    decreases RankOf(g)[u], |g[u]| - i
  {
    var w, n := Branching(g), |g|;
    if i == |g[u]| {
      SumInEmpty(w, n);
    } else {
      assert HasEdge(g, u, g[u][i]);
      PathsExceedBranching(g, g[u][i]);
      CountExceedsBranching(g, u, i + 1);
      SumInUnion(w, Reachable(g, g[u][i]), ReachableFrom(g, u, i + 1), n);
    }
  }

  // ---------- edges, blocks and leaves of the reachable part

  ghost function EdgesIn(g: Graph, S: set<nat>): nat {
    SumIn(Degrees(g), S, |g|)
  }

  ghost function Leaves(g: Graph, S: set<nat>): set<nat> {
    set v | v in S && v < |g| && g[v] == []
  }

  ghost function Upto(S: set<nat>, n: nat): set<nat> {
    set v | v in S && v < n
  }

  /** Branching sums to E - V + L over any set of blocks. */
  lemma {:induction false} BranchingSum(g: Graph, S: set<nat>, n: nat)
    requires n <= |g|
    ensures SumIn(Branching(g), S, n) ==
      SumIn(Degrees(g), S, n) - |Upto(S, n)| + |Leaves(g, Upto(S, n))|
  {
    if n == 0 {
      assert Upto(S, 0) == {} && Leaves(g, {}) == {};
    } else {
      BranchingSum(g, S, n - 1);
      var a, b := Upto(S, n), Upto(S, n - 1);
      if n - 1 in S {
        assert a == b + {n - 1};
        if g[n - 1] == [] {
          assert Leaves(g, a) == Leaves(g, b) + {n - 1};
        } else {
          assert Leaves(g, a) == Leaves(g, b);
        }
      } else {
        assert a == b;
      }
    }
  }

  /** On an acyclic graph the number of paths from u is at least E - V + 1 + L over the edges,
      blocks and leaves that u reaches. */
  lemma NpathDominates(g: Graph, u: nat)
    requires WellFormed(g) && Acyclic(g) && u < |g|
    ensures var R := Reachable(g, u);
      PathCount(g, u) >= EdgesIn(g, R) - |R| + 1 + |Leaves(g, R)|
  {
    var R := Reachable(g, u);
    PathsExceedBranching(g, u);
    BranchingSum(g, R, |g|);
    assert Upto(R, |g|) == R;
  }

  // ---------- the reported numbers

  lemma {:induction false} EdgesAreReachable(g: Graph, S: set<nat>, n: nat)
    requires n <= |g|
    requires forall v :: 0 <= v < |g| && g[v] != [] ==> v in S
    ensures SumIn(Degrees(g), S, n) == OutEdges(g, n)
  {
    if n != 0 {
      EdgesAreReachable(g, S, n - 1);
    }
  }

  lemma {:induction false} LeafBelow(g: Graph, u: nat) returns (v: nat)
    requires WellFormed(g) && Acyclic(g) && u < |g|
    ensures v < |g| && Reaches(g, u, v) && g[v] == []
    decreases RankOf(g)[u]
  {
    if g[u] == [] {
      ReachesSelf(g, u);
      v := u;
    } else {
      assert HasEdge(g, u, g[u][0]);
      v := LeafBelow(g, g[u][0]);
      EdgeReaches(g, u, g[u][0], v);
    }
  }

  lemma {:induction false} SubsetSize(S: set<nat>, n: nat)
    requires forall v :: v in S ==> v < n
    ensures |S| <= n
  {
    if n == 0 {
      assert S == {};
    } else {
      SubsetSize(S - {n - 1}, n - 1);
      if n - 1 in S {
        assert S == (S - {n - 1}) + {n - 1};
      } else {
        assert S == S - {n - 1};
      }
    }
  }

  /** When every block that still has edges is reachable from u, the path count beats E - V + 2 by at
      least the number of blocks that u does not reach. */
  lemma NpathBeatsCyclomatic(g: Graph, u: nat)
    requires WellFormed(g) && Acyclic(g) && u < |g|
    requires forall v :: 0 <= v < |g| && g[v] != [] ==> Reaches(g, u, v)
    ensures PathCount(g, u) >= (NumEdges(g) - |g| + 2) + (|g| - |Reachable(g, u)|)
    ensures |Reachable(g, u)| <= |g|
  {
    var R := Reachable(g, u);
    NpathDominates(g, u);
    EdgesAreReachable(g, R, |g|);
    var v := LeafBelow(g, u);
    assert Leaves(g, R) == (Leaves(g, R) - {v}) + {v};
    SubsetSize(R, |g|);
  }
}
