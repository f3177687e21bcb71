/** What one run of the search keeps: grey vertices form the path to the current one, a finished
    vertex is never touched again inside its tree, and the finish log solves one local equation per
    vertex. */
module SearchTheory {
  import opened Graphs
  import opened DepthFirst
  import opened Sums

  // ---------- the frame of a step

  /** Untouched vertices still hold their initial table entries; parents have been discovered. */
  ghost predicate Tidy(g: Graph, s: Search) {
    && Fits(g, s)
    && (forall x :: 0 <= x < |g| && s.color[x].White? ==> !s.parent[x].defined && s.complexity[x] == 0)
    && (forall x :: 0 <= x < |g| && s.parent[x].defined ==> !s.color[s.parent[x].parent].White?)
  }

  /** r follows s while only vertex u's own entry is being accumulated. */
  ghost predicate Frame(g: Graph, s: Search, r: Search, u: nat)
    requires Fits(g, s) && Fits(g, r)
  {
    && (forall x :: 0 <= x < |g| && !s.color[x].White? ==> r.color[x] == s.color[x])
    && (forall x :: 0 <= x < |g| && r.color[x].Grey? ==> s.color[x].Grey?)
    && (forall x :: 0 <= x < |g| && (s.parent[x].defined || s.color[x].Black?) ==> r.parent[x] == s.parent[x])
    && (forall x :: 0 <= x < |g| && !s.color[x].White? && x != u ==> r.complexity[x] == s.complexity[x])
    && s.order <= r.order
  }

  lemma {:induction false} EdgeFrame(g: Graph, s: Search, u: nat, v: nat)
    requires WellFormed(g) && Tidy(g, s) && u < |g| && v < |g|
    requires s.color[u].Grey? && !s.color[0].White?
    ensures var r := VisitEdge(g, s, u, v);
      Tidy(g, r) && Frame(g, s, r, u) && !r.color[v].White?
    decreases Whites(s), 1
  {
    if s.color[v].White? {
      var s2 := Discover(TreeEdge(s, u, v), v);
      assert Whites(s2) < Whites(s) by {
        assert v in Whites(s) && v !in Whites(s2);
      }
      EdgesFrame(g, s2, v, 0);
      SubtreeFrame(g, s, u, v, VisitEdges(g, s2, v, 0));
    }
  }

  /** Closing the subtree of a tree edge u -> v whose exploration led to t. */
  lemma SubtreeFrame(g: Graph, s: Search, u: nat, v: nat, t: Search)
    requires Tidy(g, s) && u < |g| && v < |g| && v != 0
    requires s.color[u].Grey? && s.color[v].White?
    requires Tidy(g, t) && Frame(g, Discover(TreeEdge(s, u, v), v), t, v)
    ensures var r := Credit(Settle(Blacken(t, v), v), v);
      Fits(g, r) && Tidy(g, r) && Frame(g, s, r, u) && r.color[v].Black?
  {
    var s2 := Discover(TreeEdge(s, u, v), v);
    assert t.parent[v] == s2.parent[v] == Parent(true, u);
    assert t.color[u].Grey? && t.color[v].Grey?;
  }

  lemma {:induction false} EdgesFrame(g: Graph, s: Search, u: nat, i: nat)
    requires WellFormed(g) && Tidy(g, s) && u < |g| && i <= |g[u]|
    requires s.color[u].Grey? && !s.color[0].White?
    ensures var r := VisitEdges(g, s, u, i);
      Tidy(g, r) && Frame(g, s, r, u) && forall j :: i <= j < |g[u]| ==> !r.color[g[u][j]].White?
    decreases Whites(s), 1 + |g[u]| - i
  {
    if i < |g[u]| {
      EdgeFrame(g, s, u, g[u][i]);
      EdgesFrame(g, VisitEdge(g, s, u, g[u][i]), u, i + 1);
    }
  }

  /** What one examined edge does to the accumulator of its source. */
  lemma EdgeValue(g: Graph, s: Search, u: nat, v: nat)
    requires WellFormed(g) && Tidy(g, s) && u < |g| && v < |g|
    requires s.color[u].Grey? && !s.color[0].White?
    ensures var r := VisitEdge(g, s, u, v);
      r.complexity[u] == if s.color[v].Grey? then 1 else s.complexity[u] + r.complexity[v]
  {
    if s.color[v].White? {
      var s2 := Discover(TreeEdge(s, u, v), v);
      EdgesFrame(g, s2, v, 0);
      var t := VisitEdges(g, s2, v, 0);
      assert s2.parent[v] == t.parent[v] == Parent(true, u);
    }
  }

  // ---------- the finish log

  /** The log holds exactly the black vertices, each once. */
  ghost predicate Logged(g: Graph, s: Search) {
    && Fits(g, s)
    && Distinct(s.order)
    && |s.order| == s.vertices
    && (forall k :: 0 <= k < |s.order| ==> s.order[k] < |g| && s.color[s.order[k]].Black?)
    && (forall x :: 0 <= x < |g| && s.color[x].Black? ==> x in s.order)
  }

  lemma {:induction false} EdgeLogged(g: Graph, s: Search, u: nat, v: nat)
    requires WellFormed(g) && Tidy(g, s) && u < |g| && v < |g|
    requires s.color[u].Grey? && !s.color[0].White?
    requires Logged(g, s)
    ensures Logged(g, VisitEdge(g, s, u, v))
    decreases Whites(s), 1
  {
    if s.color[v].White? {
      var s1 := TreeEdge(s, u, v);
      assert Whites(s1) == Whites(s);
      var s2 := Discover(s1, v);
      assert Whites(s2) == Whites(s) - {v} && v in Whites(s);
      EdgesLogged(g, s2, v, 0);
      EdgesFrame(g, s2, v, 0);
      LoggedFinish(g, VisitEdges(g, s2, v, 0), v);
    }
  }

  lemma {:induction false} EdgesLogged(g: Graph, s: Search, u: nat, i: nat)
    requires WellFormed(g) && Tidy(g, s) && u < |g| && i <= |g[u]|
    requires s.color[u].Grey? && !s.color[0].White?
    requires Logged(g, s)
    ensures Logged(g, VisitEdges(g, s, u, i))
    decreases Whites(s), 1 + |g[u]| - i
  {
    if i < |g[u]| {
      EdgeFrame(g, s, u, g[u][i]);
      EdgeLogged(g, s, u, g[u][i]);
      EdgesLogged(g, VisitEdge(g, s, u, g[u][i]), u, i + 1);
    }
  }

  lemma LoggedFinish(g: Graph, t: Search, v: nat)
    requires Logged(g, t) && v < |g| && t.color[v].Grey?
    ensures Logged(g, Settle(Blacken(t, v), v))
    ensures Logged(g, Credit(Settle(Blacken(t, v), v), v))
  {
    var r := Settle(Blacken(t, v), v);
    assert v !in t.order;
    assert forall x :: x in r.order <==> x in t.order || x == v;
    assert v in r.order;
  }

  // ---------- the equation of a vertex

  /** The accumulator of one vertex over its successors vs[i..]: an already finished target adds its
      value, any other target (an ancestor still being explored) resets the sum to 1. */
  function Fold(vs: seq<nat>, i: nat, done: seq<nat>, c: seq<nat>, acc: nat): nat
    requires i <= |vs| && Below(vs, |c|)
    decreases |vs| - i
  {
    if i == |vs| then acc
    else Fold(vs, i + 1, done, c, if vs[i] in done then acc + c[vs[i]] else 1)
  }

  /** The k-th finished vertex w: its value is the fold over its successors, where the targets that
      count are those finished before w; every other target reaches w, so that edge closes a cycle. */
  ghost predicate Equation(g: Graph, order: seq<nat>, c: seq<nat>, k: nat)
    requires WellFormed(g) && |c| == |g| && k < |order| && order[k] < |g|
  {
    var w := order[k];
    && c[w] == AtLeastOne(Fold(g[w], 0, order[..k], c, 0))
    && forall v :: v in g[w] && v !in order[..k] ==> Reaches(g, v, w)
  }

  ghost predicate Solved(g: Graph, order: seq<nat>, c: seq<nat>, from: nat)
    requires WellFormed(g) && |c| == |g| && Below(order, |g|)
  {
    forall k :: from <= k < |order| ==> Equation(g, order, c, k)
  }

  lemma {:induction false} FoldAgrees(vs: seq<nat>, i: nat, done: seq<nat>, c: seq<nat>, d: seq<nat>, acc: nat)
    requires i <= |vs| && Below(vs, |c|) && |c| == |d|
    requires forall x :: x in done && x < |c| ==> c[x] == d[x]
    ensures Fold(vs, i, done, c, acc) == Fold(vs, i, done, d, acc)
    decreases |vs| - i
  {
    if i < |vs| {
      FoldAgrees(vs, i + 1, done, c, d, if vs[i] in done then acc + c[vs[i]] else 1);
    }
  }

  lemma SolvedExtends(g: Graph, order: seq<nat>, c: seq<nat>, order': seq<nat>, d: seq<nat>, from: nat)
    requires WellFormed(g) && |c| == |d| == |g| && Below(order, |g|) && Below(order', |g|)
    requires Solved(g, order, c, from) && order <= order'
    requires forall x :: x in order ==> c[x] == d[x]
    ensures forall k :: from <= k < |order| ==> Equation(g, order', d, k)
  {
    forall k | from <= k < |order|
      ensures Equation(g, order', d, k)
    {
      assert Equation(g, order, c, k);
      assert order'[..k] == order[..k];
      assert order[k] in order;
      FoldAgrees(g[order[k]], 0, order[..k], c, d, 0);
    }
  }

  /** Vertex v, all of whose out-edges have been examined, settles its own equation. */
  lemma SolvedSettle(g: Graph, t: Search, v: nat, from: nat)
    requires WellFormed(g) && Logged(g, t) && v < |g| && t.color[v].Grey?
    requires Below(t.order, |g|) && Solved(g, t.order, t.complexity, from) && from <= |t.order|
    requires t.complexity[v] == Fold(g[v], 0, t.order, t.complexity, 0)
    requires forall x :: x in g[v] && x !in t.order ==> Reaches(g, x, v)
    ensures var r := Settle(Blacken(t, v), v); Below(r.order, |g|) && Solved(g, r.order, r.complexity, from)
  {
    var r := Settle(Blacken(t, v), v);
    assert v !in t.order;
    SolvedExtends(g, t.order, t.complexity, r.order, r.complexity, from);
    FoldAgrees(g[v], 0, t.order, t.complexity, r.complexity, 0);
    assert r.order[..|t.order|] == t.order;
    assert Equation(g, r.order, r.complexity, |t.order|);
  }

  ghost predicate AllReach(g: Graph, s: Search, u: nat)
    requires Fits(g, s)
  {
    forall x :: 0 <= x < |g| && s.color[x].Grey? ==> Reaches(g, x, u)
  }

  /** A state that differs from a solved one only in the entry of an unfinished vertex. */
  lemma SolvedAside(g: Graph, s: Search, r: Search, u: nat, from: nat)
    requires WellFormed(g) && Logged(g, s) && Fits(g, r) && r.order == s.order
    requires u < |g| && !s.color[u].Black?
    requires Below(s.order, |g|) && Solved(g, s.order, s.complexity, from)
    requires forall x :: 0 <= x < |g| && x != u ==> r.complexity[x] == s.complexity[x]
    ensures Solved(g, r.order, r.complexity, from)
  {
    assert u !in s.order;
    SolvedExtends(g, s.order, s.complexity, r.order, r.complexity, from);
  }

  lemma {:induction false} EdgeSolved(g: Graph, s: Search, u: nat, v: nat, from: nat)
    requires WellFormed(g) && Tidy(g, s) && u < |g| && v in g[u]
    requires s.color[u].Grey? && !s.color[0].White?
    requires Logged(g, s) && AllReach(g, s, u)
    requires from <= |s.order| && Below(s.order, |g|) && Solved(g, s.order, s.complexity, from)
    ensures var r := VisitEdge(g, s, u, v);
      Below(r.order, |g|) && Solved(g, r.order, r.complexity, from)
    decreases Whites(s), 1
  {
    if s.color[v].White? {
      var s2 := Discover(TreeEdge(s, u, v), v);
      assert Whites(s2) < Whites(s) by {
        assert v in Whites(s) && v !in Whites(s2);
      }
      GreyPathGrows(g, s2, u, v);
      VertexSolved(g, s2, v, from);
      var t := Settle(Blacken(VisitEdges(g, s2, v, 0), v), v);
      PaySolved(g, t, u, v, from);
    } else {
      SolvedAside(g, s, VisitEdge(g, s, u, v), u, from);
    }
  }

  lemma PaySolved(g: Graph, t: Search, u: nat, v: nat, from: nat)
    requires WellFormed(g) && Logged(g, t) && u < |g| && v < |g| && v != 0 && u != v
    requires !t.color[u].Black? && t.parent[v] == Parent(true, u)
    requires Below(t.order, |g|) && Solved(g, t.order, t.complexity, from)
    ensures var r := Credit(t, v);
      Solved(g, r.order, r.complexity, from)
  {
    SolvedAside(g, t, Credit(t, v), u, from);
  }

  /** Exploring a freshly discovered vertex and settling it; the credit is not paid yet. */
  lemma {:induction false} VertexSolved(g: Graph, s: Search, v: nat, from: nat)
    requires WellFormed(g) && Tidy(g, s) && v < |g|
    requires s.color[v].Grey? && !s.color[0].White?
    requires s.complexity[v] == 0
    requires Logged(g, s) && AllReach(g, s, v)
    requires from <= |s.order| && Below(s.order, |g|) && Solved(g, s.order, s.complexity, from)
    ensures var r := Settle(Blacken(VisitEdges(g, s, v, 0), v), v);
      && Logged(g, r) && Below(r.order, |g|) && Solved(g, r.order, r.complexity, from)
      && (forall x :: 0 <= x < |g| && s.color[x].Grey? && x != v ==>
            r.color[x].Grey? && r.complexity[x] == s.complexity[x])
      && (s.parent[v].defined ==> r.parent[v] == s.parent[v])
    decreases Whites(s), 2 + |g[v]|
  {
    EdgesSolved(g, s, v, 0, from);
    EdgesFrame(g, s, v, 0);
    EdgesLogged(g, s, v, 0);
    LoggedFinish(g, VisitEdges(g, s, v, 0), v);
    EdgesFold(g, s, v, 0);
    Unfinished(g, s, v);
    SolvedSettle(g, VisitEdges(g, s, v, 0), v, from);
  }

  lemma GreyPathGrows(g: Graph, s2: Search, u: nat, v: nat)
    requires WellFormed(g) && Fits(g, s2) && u < |g| && v in g[u] && v < |g|
    requires forall x :: 0 <= x < |g| && s2.color[x].Grey? && x != v ==> Reaches(g, x, u)
    ensures AllReach(g, s2, v)
  {
    forall x | 0 <= x < |g| && s2.color[x].Grey?
      ensures Reaches(g, x, v)
    {
      if x == v {
        ReachesSelf(g, v);
      } else {
        ReachesEdge(g, x, u, v);
      }
    }
  }

  lemma {:induction false} EdgesSolved(g: Graph, s: Search, u: nat, i: nat, from: nat)
    requires WellFormed(g) && Tidy(g, s) && u < |g| && i <= |g[u]|
    requires s.color[u].Grey? && !s.color[0].White?
    requires Logged(g, s) && AllReach(g, s, u)
    requires from <= |s.order| && Below(s.order, |g|) && Solved(g, s.order, s.complexity, from)
    ensures var r := VisitEdges(g, s, u, i);
      Below(r.order, |g|) && Solved(g, r.order, r.complexity, from)
    decreases Whites(s), 1 + |g[u]| - i
  {
    if i < |g[u]| {
      var m := VisitEdge(g, s, u, g[u][i]);
      EdgeSolved(g, s, u, g[u][i], from);
      StillInside(g, s, u, g[u][i]);
      EdgesSolved(g, m, u, i + 1, from);
    }
  }

  lemma {:induction false} EdgesFold(g: Graph, s: Search, u: nat, i: nat)
    requires WellFormed(g) && Tidy(g, s) && u < |g| && i <= |g[u]|
    requires s.color[u].Grey? && !s.color[0].White? && Logged(g, s)
    ensures var r := VisitEdges(g, s, u, i);
      r.complexity[u] == Fold(g[u], i, r.order, r.complexity, s.complexity[u])
    decreases |g[u]| - i
  {
    if i < |g[u]| {
      var v := g[u][i];
      var m := VisitEdge(g, s, u, v);
      assert Tidy(g, m) && m.color[u].Grey? && !m.color[0].White? by {
        EdgeFrame(g, s, u, v);
      }
      assert Logged(g, m) by {
        EdgeLogged(g, s, u, v);
      }
      EdgesFold(g, m, u, i + 1);
      EdgeValue(g, s, u, v);
      BackIffUnfinished(g, s, u, i);
    }
  }

  /** A successor that is unfinished when its source settles was grey all along, so it reaches it. */
  lemma {:induction false} Unfinished(g: Graph, s: Search, u: nat)
    requires WellFormed(g) && Tidy(g, s) && u < |g|
    requires s.color[u].Grey? && !s.color[0].White?
    requires Logged(g, s) && AllReach(g, s, u)
    ensures forall x :: x in g[u] && x !in VisitEdges(g, s, u, 0).order ==> Reaches(g, x, u)
  {
    EdgesFrame(g, s, u, 0);
    EdgesLogged(g, s, u, 0);
    var r := VisitEdges(g, s, u, 0);
    forall x | x in g[u] && x !in r.order
      ensures Reaches(g, x, u)
    {
      var j :| 0 <= j < |g[u]| && g[u][j] == x;
      assert !r.color[g[u][j]].White?;
      assert s.color[x].Grey?;
    }
  }

  lemma StillInside(g: Graph, s: Search, u: nat, v: nat)
    requires WellFormed(g) && Tidy(g, s) && u < |g| && v < |g|
    requires s.color[u].Grey? && !s.color[0].White?
    requires Logged(g, s) && AllReach(g, s, u)
    ensures var m := VisitEdge(g, s, u, v);
      && Tidy(g, m) && Logged(g, m) && AllReach(g, m, u)
      && m.color[u].Grey? && !m.color[0].White? && |s.order| <= |m.order|
  {
    EdgeFrame(g, s, u, v);
    EdgeLogged(g, s, u, v);
  }

  /** The edge examined next is a back edge exactly when its target is unfinished at the end. */
  lemma {:induction false} BackIffUnfinished(g: Graph, s: Search, u: nat, i: nat)
    requires WellFormed(g) && Tidy(g, s) && u < |g| && i < |g[u]|
    requires s.color[u].Grey? && !s.color[0].White? && Logged(g, s)
    ensures var v := g[u][i];
      var m := VisitEdge(g, s, u, v);
      var r := VisitEdges(g, m, u, i + 1);
      && (s.color[v].Grey? <==> v !in r.order)
      && (!s.color[v].Grey? ==> v != u && r.complexity[v] == m.complexity[v])
  {
    var v := g[u][i];
    var m := VisitEdge(g, s, u, v);
    EdgeFrame(g, s, u, v);
    EdgeLogged(g, s, u, v);
    EdgesFrame(g, m, u, i + 1);
    EdgesLogged(g, m, u, i + 1);
  }
}
