/** The tree of block 1, part by part: in which order its blocks finish, as far as a few rows tell, and
    the value of each block in terms of the values of its successors. */
module EntryTree {
  import opened Graphs
  import opened Sums
  import opened DepthFirst
  import opened SearchTheory
  import opened WholeSearch
  import opened CyclicNpath

  // ---------- the values in the tree

  ghost predicate Tree(g: Graph, order: seq<nat>, c: seq<nat>) {
    && WellFormed(g) && |c| == |g| >= 2 && Isolated(g, 0)
    && Below(order, |g|) && Distinct(order) && Solved(g, order, c, 1) && 1 in order
    && forall k :: 0 <= k < |order| && order[k] != 0 ==> k > 0
  }

  /** The entry of block 1, by the equations of its own tree. */
  lemma TreeOfOne(g: Graph) returns (order: seq<nat>, c: seq<nat>)
    requires WellFormed(g) && |g| >= 2 && Isolated(g, 0)
    ensures order == BlockOne(g).order && c == BlockOne(g).complexity && Tree(g, order, c)
    ensures Run(g).complexity[1] == (if 1 in g[1] then 2 else 1) * c[1]
  {
    ReportedValue(g);
    EntryVisited(g);
    RootFrame(g, AfterEntry(g), 1);
    var t := BlockOne(g);
    order, c := t.order, t.complexity;
    assert order[|order| - 1] == 1;
  }

  /** The blocks that finish before u. */
  ghost function Before(order: seq<nat>, u: nat): (done: seq<nat>)
    requires u in order && Distinct(order)
    ensures u !in done && forall v :: v in done ==> v in order
  {
    order[..Position(order, u)]
  }

  lemma ValueOf(g: Graph, order: seq<nat>, c: seq<nat>, u: nat)
    requires Tree(g, order, c) && u in order && u != 0
    ensures u < |g| && Below(g[u], |c|) && c[u] == AtLeastOne(Fold(g[u], 0, Before(order, u), c, 0))
    ensures forall v: nat :: v in g[u] && v !in Before(order, u) ==> Reaches(g, v, u)
  {
    assert Equation(g, order, c, Position(order, u));
  }

  lemma EarlierStill(order: seq<nat>, u: nat, v: nat, w: nat)
    requires u in order && Distinct(order) && v in Before(order, u)
    ensures w !in Before(order, u) ==> w !in Before(order, v)
    ensures u !in Before(order, v)
  {
    var i :| 0 <= i < Position(order, u) && order[i] == v;
    assert Position(order, v) == i;
    assert Before(order, v) <= Before(order, u);
  }

  // ---------- following the search

  /** Block u is being explored. */
  ghost predicate Exploring(g: Graph, s: Search, u: nat) {
    WellFormed(g) && Tidy(g, s) && Logged(g, s) && u < |g| && s.color[u].Grey? && !s.color[0].White?
  }

  /** In the search with that finish order, the out-edges of u from the i-th on come next in state s. */
  ghost predicate Opens(g: Graph, s: Search, u: nat, i: nat, order: seq<nat>) {
    Exploring(g, s, u) && i <= |g[u]| && VisitEdges(g, s, u, i).order + [u] <= order && Distinct(order)
  }

  lemma {:induction false} OpenOne(g: Graph) returns (s: Search)
    requires WellFormed(g) && |g| >= 2 && Isolated(g, 0)
    ensures Opens(g, s, 1, 0, BlockOne(g).order)
    ensures forall y :: 0 <= y < |g| ==> (s.color[y].White? <==> y >= 2) && (s.color[y].Grey? <==> y == 1)
  {
    EntryVisited(g);
    s := Discover(AfterEntry(g), 1);
    assert Distinct(BlockOne(g).order) by {
      RootFrame(g, AfterEntry(g), 1);
    }
    OneFinishes(g);
  }

  lemma {:induction false} OneFinishes(g: Graph)
    requires WellFormed(g) && |g| >= 2 && Isolated(g, 0)
    ensures Fits(g, AfterEntry(g)) && AfterEntry(g).color[1].White?
    ensures VisitEdges(g, Discover(AfterEntry(g), 1), 1, 0).order + [1] == BlockOne(g).order
  {
    EntryVisited(g);
  }

  /** When u has finished, its successors have, but for those that were grey. */
  lemma Sees(g: Graph, s: Search, u: nat, order: seq<nat>)
    requires Opens(g, s, u, 0, order)
    ensures u in order
    ensures forall y :: y in g[u] && !s.color[y].Grey? ==> y in Before(order, u)
    ensures forall y :: 0 <= y < |g| && s.color[y].Grey? ==> y !in Before(order, u)
  {
    var r := VisitEdges(g, s, u, 0);
    EdgesFrame(g, s, u, 0);
    EdgesLogged(g, s, u, 0);
    LastOf(r.order, u, order);
    forall y | y in g[u] && !s.color[y].Grey?
      ensures y in Before(order, u)
    {
      var j :| 0 <= j < |g[u]| && g[u][j] == y;
      assert !r.color[y].White? && !r.color[y].Grey?;
    }
    assert forall y :: 0 <= y < |g| && s.color[y].Grey? ==> r.color[y].Grey?;
  }

  lemma LastOf(part: seq<nat>, u: nat, order: seq<nat>)
    requires part + [u] <= order && Distinct(order)
    ensures u in order && Before(order, u) == part
  {
    assert order[|part|] == u;
    assert Position(order, u) == |part|;
  }

  /** What leads out of the set has been discovered. */
  ghost predicate Closed(g: Graph, s: Search, inside: set<nat>) {
    forall x: nat, y: nat :: x in inside && HasEdge(g, x, y) && y < |s.color| && s.color[y].White? ==> y in inside
  }

  /** White blocks outside that set stay white; discovered ones are not forgotten. */
  ghost predicate Stays(g: Graph, s: Search, r: Search, inside: set<nat>)
    requires |s.color| == |r.color| == |g|
  {
    forall y :: 0 <= y < |g| ==>
      (s.color[y].White? && y !in inside ==> r.color[y].White?) && (r.color[y].White? ==> s.color[y].White?)
  }

  lemma {:induction false} EdgeInside(g: Graph, s: Search, u: nat, v: nat, inside: set<nat>)
    requires Exploring(g, s, u) && v < |g| && Closed(g, s, inside) && (v in inside || !s.color[v].White?)
    ensures Stays(g, s, VisitEdge(g, s, u, v), inside)
    decreases Whites(s), 1
  {
    if s.color[v].White? {
      var s2 := Discover(TreeEdge(s, u, v), v);
      assert Whites(s2) < Whites(s) by {
        assert v in Whites(s) && v !in Whites(s2);
      }
      EdgesInside(g, s2, v, 0, inside);
      VisitedStays(g, s, u, v, inside);
    }
  }

  lemma {:induction false} VisitedStays(g: Graph, s: Search, u: nat, v: nat, inside: set<nat>)
    requires Exploring(g, s, u) && v < |g| && s.color[v].White? && v in inside
    requires var s2 := Discover(TreeEdge(s, u, v), v); Stays(g, s2, VisitEdges(g, s2, v, 0), inside)
    ensures Stays(g, s, VisitEdge(g, s, u, v), inside)
  {
  }

  lemma {:induction false} EdgesInside(g: Graph, s: Search, u: nat, i: nat, inside: set<nat>)
    requires Exploring(g, s, u) && u in inside && i <= |g[u]| && Closed(g, s, inside)
    ensures Stays(g, s, VisitEdges(g, s, u, i), inside)
    decreases Whites(s), 1 + |g[u]| - i
  {
    if i < |g[u]| {
      var v := g[u][i];
      assert HasEdge(g, u, v);
      EdgeInside(g, s, u, v, inside);
      EdgeFrame(g, s, u, v);
      EdgeLogged(g, s, u, v);
      EdgesInside(g, VisitEdge(g, s, u, v), u, i + 1, inside);
    }
  }

  /** Going down one out-edge. */
  lemma {:induction false} OpenChild(g: Graph, s: Search, u: nat, i: nat, order: seq<nat>) returns (s2: Search)
    requires Opens(g, s, u, i, order) && i < |g[u]| && s.color[g[u][i]].White?
    ensures Opens(g, s2, g[u][i], 0, order) && s2.color == s.color[g[u][i] := Grey]
  {
    var v := g[u][i];
    s2 := Discover(TreeEdge(s, u, v), v);
    ChildFinishes(g, s, u, i, v);
  }

  lemma {:induction false} ChildFinishes(g: Graph, s: Search, u: nat, i: nat, v: nat)
    requires Exploring(g, s, u) && i < |g[u]| && v == g[u][i] && s.color[v].White?
    ensures var s2 := Discover(TreeEdge(s, u, v), v);
      Exploring(g, s2, v) && VisitEdges(g, s2, v, 0).order + [v] <= VisitEdges(g, s, u, i).order
  {
    var m := VisitEdge(g, s, u, v);
    assert Tidy(g, m) && m.color[u].Grey? && !m.color[0].White? by {
      EdgeFrame(g, s, u, v);
    }
    assert m.order <= VisitEdges(g, m, u, i + 1).order by {
      EdgesFrame(g, m, u, i + 1);
    }
    assert m.order == VisitEdges(g, Discover(TreeEdge(s, u, v), v), v, 0).order + [v];
  }

  /** Examining one out-edge whose target is discovered or in the set. */
  lemma {:induction false} Pass(g: Graph, s: Search, u: nat, i: nat, order: seq<nat>, inside: set<nat>)
    returns (s2: Search)
    requires Opens(g, s, u, i, order) && i < |g[u]| && Closed(g, s, inside)
    requires g[u][i] in inside || !s.color[g[u][i]].White?
    ensures Opens(g, s2, u, i + 1, order) && Stays(g, s, s2, inside)
    ensures forall y :: 0 <= y < |g| ==> (s2.color[y].Grey? <==> s.color[y].Grey?)
  {
    s2 := VisitEdge(g, s, u, g[u][i]);
    EdgeInside(g, s, u, g[u][i], inside);
    EdgeFrame(g, s, u, g[u][i]);
    EdgeLogged(g, s, u, g[u][i]);
  }

  /** The first successor of u that is neither discovered nor in the set. */
  ghost predicate Next(g: Graph, s: Search, u: nat, i: nat, v: nat, inside: set<nat>)
    requires u < |g| == |s.color|
  {
    && v in g[u] && v < |g| && v !in inside && s.color[v].White?
    && forall j :: 0 <= j < |g[u]| && g[u][j] < v ==>
         j < i || g[u][j] in inside || (g[u][j] < |g| && !s.color[g[u][j]].White?)
  }

  lemma {:induction false} DescendFrom(g: Graph, s: Search, u: nat, i: nat, order: seq<nat>, v: nat, inside: set<nat>)
    returns (s2: Search)
    requires Opens(g, s, u, i, order) && Closed(g, s, inside) && Next(g, s, u, i, v, inside)
    requires forall j :: 0 <= j < i ==> g[u][j] < v
    ensures Opens(g, s2, v, 0, order)
    ensures forall y :: 0 <= y < |g| ==> (s2.color[y].Grey? <==> s.color[y].Grey? || y == v)
    ensures forall y :: 0 <= y < |g| && s.color[y].White? && y !in inside && y != v ==> s2.color[y].White?
    decreases |g[u]| - i
  {
    var k :| 0 <= k < |g[u]| && g[u][k] == v;
    if i == k {
      s2 := OpenChild(g, s, u, i, order);
    } else {
      assert i < k;
      var m := Pass(g, s, u, i, order, inside);
      s2 := DescendFrom(g, m, u, i + 1, order, v, inside);
    }
  }

  /** Going down to the successor v of u, past smaller ones that lead to nothing but the given blocks. */
  lemma {:induction false} Descend(g: Graph, s: Search, u: nat, order: seq<nat>, v: nat, inside: set<nat>)
    returns (s2: Search)
    requires Opens(g, s, u, 0, order) && Closed(g, s, inside) && Next(g, s, u, 0, v, inside)
    ensures Opens(g, s2, v, 0, order)
    ensures forall y :: 0 <= y < |g| ==> (s2.color[y].Grey? <==> s.color[y].Grey? || y == v)
    ensures forall y :: 0 <= y < |g| && s.color[y].White? && y !in inside && y != v ==> s2.color[y].White?
  {
    s2 := DescendFrom(g, s, u, 0, order, v, inside);
  }

  /** All successors of block 1 but itself have finished when it does. */
  lemma RootSees(g: Graph, order: seq<nat>)
    requires WellFormed(g) && |g| >= 2 && Isolated(g, 0) && order == BlockOne(g).order
    ensures Distinct(order) && 1 in order && forall y :: y in g[1] && y != 1 ==> y in Before(order, 1)
  {
    var s := OpenOne(g);
    Sees(g, s, 1, order);
  }
}
