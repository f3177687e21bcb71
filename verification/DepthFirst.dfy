/** The depth-first search of the path counter as a function on values: what the visitor's tables
    hold after a vertex, after a suffix of its out-edges, and after all roots. Roots are tried in
    ascending order; out-edges are taken in ascending order of target. */
module DepthFirst {
  import opened Graphs

  datatype Color = White | Grey | Black

  /** The slot that remembers only the first block assigned to it. */
  datatype Parent = Parent(defined: bool, parent: nat) {
    function Set(p: nat): Parent {
      if !defined then Parent(true, p) else this
    }
  }

  /** `order` lists the finished vertices, earliest first. */
  datatype Search = Search(
    color: seq<Color>, parent: seq<Parent>, complexity: seq<nat>,
    edges: nat, vertices: nat, order: seq<nat>)

  ghost predicate Fits(g: Graph, s: Search) {
    && |s.color| == |s.parent| == |s.complexity| == |g|
    && forall v :: 0 <= v < |g| ==> s.parent[v].parent < |g|
  }

  function Whites(s: Search): set<nat> {
    set v: nat | v < |s.color| && s.color[v].White?
  }

  function Start(n: nat): Search {
    Search(seq(n, _ => White), seq(n, _ => Parent(false, 0)), seq(n, _ => 0), 0, 0, [])
  }

  // ---------- the visitor's events

  function TreeEdge(s: Search, u: nat, v: nat): Search
    requires v < |s.parent|
  {
    s.(parent := s.parent[v := s.parent[v].Set(u)], edges := s.edges + 1)
  }

  function BackEdge(s: Search, u: nat, v: nat): Search
    requires u < |s.complexity| && v < |s.parent|
  {
    s.(complexity := s.complexity[u := 1], parent := s.parent[v := s.parent[v].Set(u)], edges := s.edges + 1)
  }

  function ForwardOrCrossEdge(s: Search, u: nat, v: nat): Search
    requires u < |s.complexity| && v < |s.complexity|
  {
    s.(complexity := s.complexity[u := s.complexity[u] + s.complexity[v]], edges := s.edges + 1)
  }

  function AtLeastOne(c: nat): nat {
    if c == 0 then 1 else c
  }

  /** The first half of finish_vertex: count the vertex, raise an empty result to 1. */
  function Settle(s: Search, u: nat): Search
    requires u < |s.complexity|
  {
    s.(complexity := s.complexity[u := AtLeastOne(s.complexity[u])],
       vertices := s.vertices + 1, order := s.order + [u])
  }

  /** The second half of finish_vertex: pay the result to the parent, except for vertex 0. */
  function Credit(s: Search, u: nat): Search
    requires u < |s.complexity| && u < |s.parent| && s.parent[u].parent < |s.complexity|
  {
    var p := s.parent[u].parent;
    if u != 0 && s.parent[u].defined
    then s.(complexity := s.complexity[p := s.complexity[p] + s.complexity[u]])
    else s
  }

  function Discover(s: Search, u: nat): Search
    requires u < |s.color|
  {
    s.(color := s.color[u := Grey])
  }

  function Blacken(s: Search, u: nat): Search
    requires u < |s.color|
  {
    s.(color := s.color[u := Black])
  }

  // ---------- the search

  function VisitVertex(g: Graph, s: Search, u: nat): (r: Search)
    requires WellFormed(g) && Fits(g, s)
    requires u < |g| && s.color[u].White?
    ensures Fits(g, r) && Whites(r) < Whites(s)
    decreases Whites(s), 0
  {
    assert Whites(Discover(s, u)) == Whites(s) - {u};
    assert u in Whites(s);
    var t := VisitEdges(g, Discover(s, u), u, 0);
    assert Whites(Blacken(t, u)) <= Whites(t);
    Credit(Settle(Blacken(t, u), u), u)
  }

  function VisitEdges(g: Graph, s: Search, u: nat, i: nat): (r: Search)
    requires WellFormed(g) && Fits(g, s)
    requires u < |g| && i <= |g[u]|
    ensures Fits(g, r) && Whites(r) <= Whites(s)
    decreases Whites(s), 1 + |g[u]| - i
  {
    if i == |g[u]| then s
    else VisitEdges(g, VisitEdge(g, s, u, g[u][i]), u, i + 1)
  }

  function VisitEdge(g: Graph, s: Search, u: nat, v: nat): (r: Search)
    requires WellFormed(g) && Fits(g, s)
    requires u < |g| && v < |g|
    ensures Fits(g, r) && Whites(r) <= Whites(s)
    decreases Whites(s), 1
  {
    match s.color[v]
    case White =>
      assert Whites(TreeEdge(s, u, v)) == Whites(s);
      VisitVertex(g, TreeEdge(s, u, v), v)
    case Grey => BackEdge(s, u, v)
    case Black => ForwardOrCrossEdge(s, u, v)
  }

  function VisitRoots(g: Graph, s: Search, k: nat): (r: Search)
    requires WellFormed(g) && Fits(g, s) && k <= |g|
    ensures Fits(g, r)
    decreases |g| - k
  {
    if k == |g| then s
    else VisitRoots(g, if s.color[k].White? then VisitVertex(g, s, k) else s, k + 1)
  }

  /** depth_first_search from freshly initialised tables. */
  function Run(g: Graph): (r: Search)
    requires WellFormed(g)
    ensures Fits(g, r)
  {
    VisitRoots(g, Start(|g|), 0)
  }

  function Cabe(s: Search): int {
    s.edges - s.vertices + 2
  }
}
