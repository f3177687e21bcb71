/** Walks between two blocks of an acyclic flow graph, their number, and the law by which path counts
    multiply at a block. */
module WalkCounts {
  import opened Graphs
  import opened Paths

  ghost predicate IsWalk(g: Graph, u: nat, v: nat, p: seq<nat>) {
    Walk(g, p) && p[0] == u && p[|p| - 1] == v
  }

  // ---------- the number of walks

  ghost function PathsTo(g: Graph, u: nat, v: nat): nat
    requires WellFormed(g) && Acyclic(g) && u < |g|
    decreases RankOf(g)[u], |g[u]| + 1
  {
    if u == v then 1 else PathsToFrom(g, u, v, 0)
  }

  ghost function PathsToFrom(g: Graph, u: nat, v: nat, i: nat): nat
    requires WellFormed(g) && Acyclic(g) && u < |g| && i <= |g[u]|
    decreases RankOf(g)[u], |g[u]| - i
  {
    if i == |g[u]| then 0
    else
      assert HasEdge(g, u, g[u][i]);
      PathsTo(g, g[u][i], v) + PathsToFrom(g, u, v, i + 1)
  }

  // ---------- the walks

  ghost function WalksTo(g: Graph, u: nat, v: nat): set<seq<nat>>
    requires WellFormed(g) && Acyclic(g) && u < |g|
    decreases RankOf(g)[u], |g[u]| + 1
  {
    if u == v then {[u]} else WalksToFrom(g, u, v, 0)
  }

  ghost function WalksToFrom(g: Graph, u: nat, v: nat, i: nat): set<seq<nat>>
    requires WellFormed(g) && Acyclic(g) && u < |g| && i <= |g[u]|
    decreases RankOf(g)[u], |g[u]| - i
  {
    if i == |g[u]| then {}
    else
      assert HasEdge(g, u, g[u][i]);
      Prefixed(u, WalksTo(g, g[u][i], v)) + WalksToFrom(g, u, v, i + 1)
  }

  /** No walk of an acyclic graph comes back to where it began. */
  lemma NoReturn(g: Graph, p: seq<nat>)
    requires WellFormed(g) && Acyclic(g) && Walk(g, p) && p[0] == p[|p| - 1]
    ensures |p| == 1
  {
    if |p| > 1 {
      WalkFalls(g, RankOf(g), p[1..]);
    }
  }

  lemma {:induction false} WalksToExact(g: Graph, u: nat, v: nat, p: seq<nat>)
    requires WellFormed(g) && Acyclic(g) && u < |g|
    ensures p in WalksTo(g, u, v) <==> IsWalk(g, u, v, p)
    decreases RankOf(g)[u], |g[u]| + 1
  {
    if u != v {
      WalksToFromExact(g, u, v, 0, p);
    } else if IsWalk(g, u, v, p) {
      NoReturn(g, p);
      assert p == [u];
    }
  }

  lemma {:induction false} WalksToFromExact(g: Graph, u: nat, v: nat, i: nat, p: seq<nat>)
    requires WellFormed(g) && Acyclic(g) && u < |g| && i <= |g[u]| && u != v
    ensures p in WalksToFrom(g, u, v, i) <==>
      IsWalk(g, u, v, p) && |p| > 1 && exists j :: i <= j < |g[u]| && g[u][j] == p[1]
    decreases RankOf(g)[u], |g[u]| - i
  {
    if i < |g[u]| {
      var w := g[u][i];
      assert HasEdge(g, u, w);
      WalksToFromExact(g, u, v, i + 1, p);
      if p in Prefixed(u, WalksTo(g, w, v)) {
        var q :| q in WalksTo(g, w, v) && p == [u] + q;
        WalksToExact(g, w, v, q);
        assert p[1..] == q;
      }
      if IsWalk(g, u, v, p) && |p| > 1 && p[1] == w {
        var q := p[1..];
        WalksToExact(g, w, v, q);
        assert p == [u] + q;
      }
    }
  }

  /** PathsTo counts the walks from u to v. */
  lemma {:induction false} PathsToIsSize(g: Graph, u: nat, v: nat)
    requires WellFormed(g) && Acyclic(g) && u < |g|
    ensures PathsTo(g, u, v) == |WalksTo(g, u, v)|
    decreases RankOf(g)[u], |g[u]| + 1
  {
    if u != v {
      PathsToFromIsSize(g, u, v, 0);
    }
  }

  lemma {:induction false} PathsToFromIsSize(g: Graph, u: nat, v: nat, i: nat)
    requires WellFormed(g) && Acyclic(g) && u < |g| && i <= |g[u]| && u != v
    ensures PathsToFrom(g, u, v, i) == |WalksToFrom(g, u, v, i)|
    decreases RankOf(g)[u], |g[u]| - i
  {
    if i < |g[u]| {
      var w := g[u][i];
      assert HasEdge(g, u, w);
      PathsToIsSize(g, w, v);
      PrefixedSize(u, WalksTo(g, w, v));
      PathsToFromIsSize(g, u, v, i + 1);
      var first := Prefixed(u, WalksTo(g, w, v));
      forall p | p in first
        ensures p !in WalksToFrom(g, u, v, i + 1)
      {
        var q :| q in WalksTo(g, w, v) && p == [u] + q;
        WalksToExact(g, w, v, q);
        WalksToFromExact(g, u, v, i + 1, p);
      }
      assert first !! WalksToFrom(g, u, v, i + 1);
    }
  }

  // ---------- path counts multiply at a block

  ghost predicate EveryPathThrough(g: Graph, u: nat, v: nat) {
    forall p :: IsMaximalPath(g, u, p) ==> v in p
  }

  lemma ThroughSuccessor(g: Graph, u: nat, v: nat, w: nat)
    requires WellFormed(g) && HasEdge(g, u, w) && u != v && EveryPathThrough(g, u, v)
    ensures EveryPathThrough(g, w, v)
  {
    forall p | IsMaximalPath(g, w, p)
      ensures v in p
    {
      var q := [u] + p;
      assert q[1..] == p;
      assert IsMaximalPath(g, u, q);
    }
  }

  lemma Distribute(a: nat, b: nat, c: nat)
    ensures (a + b) * c == a * c + b * c
  {
  }

  /** If every maximal path from u passes through v, the path counts multiply at v. */
  lemma {:induction false} CountsMultiply(g: Graph, u: nat, v: nat)
    requires WellFormed(g) && Acyclic(g) && u < |g| && v < |g| && EveryPathThrough(g, u, v)
    ensures PathCount(g, u) == PathsTo(g, u, v) * PathCount(g, v)
    decreases RankOf(g)[u], |g[u]| + 1
  {
    if u != v {
      assert IsMaximalPath(g, u, [u]) <==> g[u] == [];
      CountsMultiplyFrom(g, u, v, 0);
    }
  }

  lemma {:induction false} CountsMultiplyFrom(g: Graph, u: nat, v: nat, i: nat)
    requires WellFormed(g) && Acyclic(g) && u < |g| && v < |g| && EveryPathThrough(g, u, v)
    requires u != v && i <= |g[u]|
    ensures CountFrom(g, u, i) == PathsToFrom(g, u, v, i) * PathCount(g, v)
    decreases RankOf(g)[u], |g[u]| - i
  {
    if i < |g[u]| {
      var w := g[u][i];
      assert HasEdge(g, u, w);
      ThroughSuccessor(g, u, v, w);
      CountsMultiply(g, w, v);
      CountsMultiplyFrom(g, u, v, i + 1);
      Distribute(PathsTo(g, w, v), PathsToFrom(g, u, v, i + 1), PathCount(g, v));
    }
  }

  /** The paths through v are among the paths from u; one that avoids v makes the difference. */
  lemma {:induction false} CountsExceed(g: Graph, u: nat, v: nat, p: seq<nat>)
    requires WellFormed(g) && Acyclic(g) && u < |g| && v < |g|
    ensures PathCount(g, u) >= PathsTo(g, u, v) * PathCount(g, v)
    ensures IsMaximalPath(g, u, p) && v !in p ==> PathCount(g, u) > PathsTo(g, u, v) * PathCount(g, v)
    decreases RankOf(g)[u], |g[u]| + 1
  {
    if u != v && g[u] != [] {
      CountsExceedFrom(g, u, v, 0, p);
    }
  }

  ghost predicate Avoids(g: Graph, u: nat, v: nat, i: nat, p: seq<nat>)
    requires u < |g|
  {
    IsMaximalPath(g, u, p) && v !in p && |p| > 1 && exists j :: i <= j < |g[u]| && g[u][j] == p[1]
  }

  lemma {:induction false} CountsExceedFrom(g: Graph, u: nat, v: nat, i: nat, p: seq<nat>)
    requires WellFormed(g) && Acyclic(g) && u < |g| && v < |g| && u != v && i <= |g[u]|
    ensures CountFrom(g, u, i) >= PathsToFrom(g, u, v, i) * PathCount(g, v)
    ensures Avoids(g, u, v, i, p) ==> CountFrom(g, u, i) > PathsToFrom(g, u, v, i) * PathCount(g, v)
    decreases RankOf(g)[u], |g[u]| - i
  {
    if i < |g[u]| {
      var w := g[u][i];
      assert HasEdge(g, u, w);
      var rest := if |p| > 1 then p[1..] else p;
      CountsExceed(g, w, v, rest);
      CountsExceedFrom(g, u, v, i + 1, p);
      Distribute(PathsTo(g, w, v), PathsToFrom(g, u, v, i + 1), PathCount(g, v));
      if Avoids(g, u, v, i, p) && p[1] == w {
        assert IsMaximalPath(g, w, rest) && v !in rest;
      }
    }
  }

  /** Path counts multiply at v exactly when every maximal path from u passes through v. */
  lemma CountsMultiplyExact(g: Graph, u: nat, v: nat)
    requires WellFormed(g) && Acyclic(g) && u < |g| && v < |g|
    ensures PathCount(g, u) == PathsTo(g, u, v) * PathCount(g, v) <==> EveryPathThrough(g, u, v)
  {
    if EveryPathThrough(g, u, v) {
      CountsMultiply(g, u, v);
    } else {
      var p :| IsMaximalPath(g, u, p) && v !in p;
      CountsExceed(g, u, v, p);
    }
  }
}
