/** The visitor that counts paths while a depth-first search runs, with the search that drives it.
    The tables are updated in place; every method is proved against the search on values. */
module NpathCounting {
  import opened Graphs
  import opened DepthFirst
  import opened WholeSearch

  class NpathCounter {
    const color: array<Color>
    const parent: array<Parent>
    const complexity: array<nat>
    var edges: int
    var vertices: int
    /** The finish order so far; a log that the tables do not need. */
    ghost var order: seq<nat>

    ghost predicate Valid()
      reads this, color, parent, complexity
    {
      && color.Length == parent.Length == complexity.Length
      && edges >= 0 && vertices >= 0
    }

    ghost function Tables(): Search
      reads this, color, parent, complexity
      requires Valid()
    {
      Search(color[..], parent[..], complexity[..], edges, vertices, order)
    }

    constructor (n: nat)
      ensures Valid() && Tables() == Start(n)
      ensures fresh(color) && fresh(parent) && fresh(complexity)
    {
      color := new Color[n](_ => White);
      parent := new Parent[n](_ => Parent(false, 0));
      complexity := new nat[n](_ => 0);
      edges, vertices, order := 0, 0, [];
      new;
      assert color[..] == Start(n).color;
      assert parent[..] == Start(n).parent;
      assert complexity[..] == Start(n).complexity;
    }

    /** edges - vertices + 2. */
    function Cabe(): int
      reads this
    {
      edges - vertices + 2
    }

    method TreeEdge(u: nat, v: nat)
      requires Valid() && v < parent.Length
      modifies this`edges, parent
      ensures Valid() && Tables() == DepthFirst.TreeEdge(old(Tables()), u, v)
    {
      parent[v] := parent[v].Set(u);
      edges := edges + 1;
    }

    method BackEdge(u: nat, v: nat)
      requires Valid() && u < complexity.Length && v < parent.Length
      modifies this`edges, parent, complexity
      ensures Valid() && Tables() == DepthFirst.BackEdge(old(Tables()), u, v)
    {
      complexity[u] := 1;
      parent[v] := parent[v].Set(u);
      edges := edges + 1;
    }

    method ForwardOrCrossEdge(u: nat, v: nat)
      requires Valid() && u < complexity.Length && v < complexity.Length
      modifies this`edges, complexity
      ensures Valid() && Tables() == DepthFirst.ForwardOrCrossEdge(old(Tables()), u, v)
    {
      complexity[u] := complexity[u] + complexity[v];
      edges := edges + 1;
    }

    method FinishVertex(u: nat)
      requires Valid() && u < complexity.Length && parent[u].parent < complexity.Length
      modifies this`vertices, this`order, complexity
      ensures Valid() && Tables() == Credit(Settle(old(Tables()), u), u)
    {
      vertices := vertices + 1;
      order := order + [u];
      if complexity[u] == 0 {
        complexity[u] := 1;
      }
      assert Tables() == Settle(old(Tables()), u);
      if u != 0 {
        if parent[u].defined {
          var p := parent[u].parent;
          complexity[p] := complexity[p] + complexity[u];
        }
      }
    }

    /** Explore the white vertex u: paint it grey, examine its out-edges in ascending order, finish. */
    method DepthFirstVisit(g: Graph, u: nat)
      requires Valid() && WellFormed(g) && Fits(g, Tables())
      requires u < |g| && color[u].White?
      modifies this, color, parent, complexity
      ensures Valid() && Fits(g, Tables())
      ensures Tables() == VisitVertex(g, old(Tables()), u)
      decreases Whites(Tables())
    {
      color[u] := Grey;
      assert Tables() == Discover(old(Tables()), u);
      ghost var start := Tables();
      assert Whites(start) < Whites(old(Tables())) by {
        assert u in Whites(old(Tables())) && u !in Whites(start);
      }
      var i := 0;
      while i < |g[u]|
        invariant 0 <= i <= |g[u]|
        invariant Valid() && Fits(g, Tables())
        invariant Whites(Tables()) <= Whites(start)
        invariant VisitEdges(g, Tables(), u, i) == VisitEdges(g, start, u, 0)
      {
        var v := g[u][i];
        ghost var now := Tables();
        match color[v] {
          case White =>
            TreeEdge(u, v);
            assert Whites(Tables()) == Whites(now);
            DepthFirstVisit(g, v);
          case Grey =>
            BackEdge(u, v);
          case Black =>
            ForwardOrCrossEdge(u, v);
        }
        assert Tables() == VisitEdge(g, now, u, v);
        i := i + 1;
      }
      color[u] := Black;
      assert Tables() == Blacken(VisitEdges(g, start, u, 0), u);
      FinishVertex(u);
    }

    /** depth_first_search over freshly initialised tables. */
    method DepthFirstSearch(g: Graph)
      requires Valid() && WellFormed(g) && Tables() == Start(|g|)
      modifies this, color, parent, complexity
      ensures Valid() && Tables() == Run(g)
      ensures Cabe() == NumEdges(g) - |g| + 2
    {
      var k := 0;
      while k < |g|
        invariant 0 <= k <= |g|
        invariant Valid() && Fits(g, Tables())
        invariant VisitRoots(g, Tables(), k) == Run(g)
      {
        if color[k].White? {
          DepthFirstVisit(g, k);
        }
        k := k + 1;
      }
      RunCounts(g);
    }
  }
}
