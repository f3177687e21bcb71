/** What the recorded cyclomatic numbers count: the edges of the graph, and the decisions of the code. */
module CyclomaticNumbers {
  import opened Graphs
  import opened DepthFirst
  import opened WholeSearch
  import opened Structured
  import opened Analysis
  import opened ReportedMeasures
  import opened FunctionMeasures

  // ---------- the edges of a graph as a set of pairs

  ghost function EdgesOf(g: Graph, k: nat): set<(nat, nat)>
    requires k <= |g|
  {
    set u: nat, v: nat | u < k && v in g[u] :: (u, v)
  }

  ghost function RowEdges(row: seq<nat>, u: nat): set<(nat, nat)> {
    set v: nat | v in row :: (u, v)
  }

  lemma {:induction false} RowSize(row: seq<nat>, u: nat)
    requires Ascending(row)
    ensures |RowEdges(row, u)| == |row|
  {
    if row != [] {
      var front, last := row[..|row| - 1], row[|row| - 1];
      assert row == front + [last] && last !in front;
      RowSize(front, u);
      assert RowEdges(row, u) == RowEdges(front, u) + {(u, last)};
    } else {
      assert RowEdges(row, u) == {};
    }
  }

  /** num_edges is the number of pairs. */
  lemma {:induction false} EdgesCount(g: Graph, k: nat)
    requires WellFormed(g) && k <= |g|
    ensures |EdgesOf(g, k)| == OutEdges(g, k)
  {
    if k != 0 {
      EdgesCount(g, k - 1);
      RowSize(g[k - 1], k - 1);
      assert EdgesOf(g, k) == EdgesOf(g, k - 1) + RowEdges(g[k - 1], k - 1);
    } else {
      assert EdgesOf(g, 0) == {};
    }
  }

  /** The edges that neither start nor end at one of the given blocks. */
  ghost function EdgesAvoiding(g: Graph, blocks: set<nat>): set<(nat, nat)> {
    set u: nat, v: nat | u < |g| && v in g[u] && u !in blocks && v !in blocks :: (u, v)
  }

  /** Entry and exit, but in a graph of two blocks the entry alone. */
  ghost function Ends(g: Graph): set<nat> {
    if |g| > 2 then {0, |g| - 1} else {0}
  }

  lemma {:induction false} SameEdges(g: Graph, h: Graph, blocks: set<nat>)
    requires WellFormed(h) && |g| == |h|
    requires forall x: nat, y: nat :: HasEdge(h, x, y) <==> HasEdge(g, x, y) && x !in blocks && y !in blocks
    ensures NumEdges(h) == |EdgesAvoiding(g, blocks)|
  {
    assert EdgesOf(h, |h|) == EdgesAvoiding(g, blocks) by {
      forall x: nat, y: nat
        ensures (x, y) in EdgesOf(h, |h|) <==> (x, y) in EdgesAvoiding(g, blocks)
      {
        assert HasEdge(h, x, y) <==> HasEdge(g, x, y) && x !in blocks && y !in blocks;
      }
    }
    EdgesCount(h, |h|);
  }

  /** What the two runs search: the function's graph without the edges at the entry block, and without
      those at the exit block as well when there are more than two blocks. */
  lemma {:induction false} SearchedGraphs(g: Graph, x: nat, y: nat)
    requires WellFormed(g)
    ensures |KeepingExit(g)| == |DroppingExit(g)| == |g|
    ensures HasEdge(KeepingExit(g), x, y) <==> HasEdge(g, x, y) && x != 0 && y != 0
    ensures HasEdge(DroppingExit(g), x, y) <==> HasEdge(g, x, y) && x !in Ends(g) && y !in Ends(g)
  {
    ClearedEdges(g, 0, x, y);
    if |g| > 2 {
      ClearedEdges(KeepingExit(g), |g| - 1, x, y);
    }
  }

  lemma {:induction false} KeptEdges(g: Graph)
    requires WellFormed(g)
    ensures CyclomaticOf(KeepingExit(g)) == |EdgesAvoiding(g, {0})| - |g| + 2
  {
    forall x: nat, y: nat
      ensures HasEdge(KeepingExit(g), x, y) <==> HasEdge(g, x, y) && x !in {0} && y !in {0}
    {
      SearchedGraphs(g, x, y);
    }
    SameEdges(g, KeepingExit(g), {0});
  }

  lemma {:induction false} DroppedEdges(g: Graph)
    requires WellFormed(g)
    ensures CyclomaticOf(DroppingExit(g)) == |EdgesAvoiding(g, Ends(g))| - |g| + 2
  {
    forall x: nat, y: nat
      ensures HasEdge(DroppingExit(g), x, y) <==> HasEdge(g, x, y) && x !in Ends(g) && y !in Ends(g)
    {
      SearchedGraphs(g, x, y);
    }
    SameEdges(g, DroppingExit(g), Ends(g));
  }

  /** The recorded cyclomatic numbers are E - V + 2, where E counts the edges away from the entry block,
      in the run without exceptions also away from the exit block when there are more than two blocks,
      and V all blocks. */
  lemma {:induction false} ReportedCyclomatic(f: FunctionData, g: Graph)
    requires WellFormed(g) && |g| >= 2
    ensures Measured(f, g).cyclomaticE == |EdgesAvoiding(g, {0})| - |g| + 2
    ensures Measured(f, g).cyclomatic == |EdgesAvoiding(g, Ends(g))| - |g| + 2
  {
    KeptEdges(g);
    DroppedEdges(g);
  }

  /** They are what the visitor's own count would be, which the analyser does not read. */
  lemma {:induction false} ReportedCabe(f: FunctionData, g: Graph)
    requires WellFormed(g) && |g| >= 2
    ensures Measured(f, g).cyclomaticE == Cabe(Run(KeepingExit(g)))
    ensures Measured(f, g).cyclomatic == Cabe(Run(DroppingExit(g)))
  {
    RunCounts(KeepingExit(g));
    RunCounts(DroppingExit(g));
  }

  // ---------- structured code

  /** One for every test, and for a switch one less than the ways on from it. */
  function Decisions(s: Stmt): nat {
    match s
    case Simple => 0
    case Call => 0
    case Then(a, b) => Decisions(a) + Decisions(b)
    case If(c, body) => CondSize(c) + Decisions(body)
    case IfElse(c, yes, no) => CondSize(c) + Decisions(yes) + Decisions(no)
    case Switch(arms, hasDefault) => (if hasDefault then 0 else 1) + ArmsNumber(arms) - 1 + ArmsDecisions(arms)
  }

  function ArmsNumber(arms: Arms): (n: nat)
    ensures n >= 1
  {
    match arms
    case Last(_) => 1
    case More(_, rest) => 1 + ArmsNumber(rest)
  }

  function ArmsDecisions(arms: Arms): nat {
    match arms
    case Last(s) => Decisions(s)
    case More(s, rest) => Decisions(s) + ArmsDecisions(rest)
  }

  function Calls(s: Stmt): nat {
    match s
    case Simple => 0
    case Call => 1
    case Then(a, b) => Calls(a) + Calls(b)
    case If(_, body) => Calls(body)
    case IfElse(_, yes, no) => Calls(yes) + Calls(no)
    case Switch(arms, _) => ArmsCalls(arms)
  }

  function ArmsCalls(arms: Arms): nat {
    match arms
    case Last(s) => Calls(s)
    case More(s, rest) => Calls(s) + ArmsCalls(rest)
  }

  lemma {:induction false} CondEdges(g: Graph, c: Cond, base: nat, t: nat, f: nat)
    requires HoldsCond(g, c, base, t, f) && base + CondSize(c) <= |g|
    ensures OutEdges(g, base + CondSize(c)) == OutEdges(g, base) + 2 * CondSize(c)
  {
    match c
    case Test =>
    case Not(d) => CondEdges(g, d, base, f, t);
    case And(a, b) =>
      CondEdges(g, a, base, base + CondSize(a), f);
      CondEdges(g, b, base + CondSize(a), t, f);
    case Or(a, b) =>
      CondEdges(g, a, base, t, base + CondSize(a));
      CondEdges(g, b, base + CondSize(a), t, f);
  }

  ghost predicate HoldsIn(g: Graph, s: Stmt, base: nat, k: nat, x: seq<nat>) {
    Holds(g, s, base, k, x) && base + Size(s) <= |g| && |x| <= 1
  }

  ghost predicate EdgesAdded(g: Graph, s: Stmt, base: nat, x: seq<nat>)
    requires base + Size(s) <= |g|
  {
    OutEdges(g, base + Size(s)) == OutEdges(g, base) + Size(s) + Decisions(s) + if x == [] then 0 else Calls(s)
  }

  /** The blocks of a statement have one out-edge each, one more for every decision, and one more for
      every call unless the exit has been cleared. */
  lemma {:induction false} StmtEdges(g: Graph, s: Stmt, base: nat, k: nat, x: seq<nat>)
    requires HoldsIn(g, s, base, k, x)
    ensures EdgesAdded(g, s, base, x)
    decreases s, 1
  {
    match s
    case Simple =>
    case Call =>
    case Then(a, b) => ThenEdges(g, a, b, base, k, x);
    case If(c, body) => IfEdges(g, c, body, base, k, x);
    case IfElse(c, yes, no) => IfElseEdges(g, c, yes, no, base, k, x);
    case Switch(arms, hasDefault) => SwitchEdges(g, arms, hasDefault, base, k, x);
  }

  lemma {:induction false} ThenEdges(g: Graph, a: Stmt, b: Stmt, base: nat, k: nat, x: seq<nat>)
    requires HoldsIn(g, Then(a, b), base, k, x)
    ensures EdgesAdded(g, Then(a, b), base, x)
    decreases Then(a, b), 0
  {
    var m := base + Size(a);
    assert EdgesAdded(g, a, base, x) by {
      StmtEdges(g, a, base, m, x);
    }
    assert EdgesAdded(g, b, m, x) by {
      StmtEdges(g, b, m, k, x);
    }
  }

  lemma {:induction false} IfEdges(g: Graph, c: Cond, body: Stmt, base: nat, k: nat, x: seq<nat>)
    requires HoldsIn(g, If(c, body), base, k, x)
    ensures EdgesAdded(g, If(c, body), base, x)
    decreases If(c, body), 0
  {
    var b1 := base + CondSize(c);
    assert OutEdges(g, b1) == OutEdges(g, base) + 2 * CondSize(c) by {
      CondEdges(g, c, base, b1, k);
    }
    assert EdgesAdded(g, body, b1, x) by {
      StmtEdges(g, body, b1, k, x);
    }
  }

  lemma {:induction false} IfElseEdges(g: Graph, c: Cond, yes: Stmt, no: Stmt, base: nat, k: nat, x: seq<nat>)
    requires HoldsIn(g, IfElse(c, yes, no), base, k, x)
    ensures EdgesAdded(g, IfElse(c, yes, no), base, x)
    decreases IfElse(c, yes, no), 0
  {
    var b1 := base + CondSize(c);
    var b2 := b1 + Size(yes);
    assert OutEdges(g, b1) == OutEdges(g, base) + 2 * CondSize(c) by {
      CondEdges(g, c, base, b1, b2);
    }
    assert EdgesAdded(g, yes, b1, x) by {
      StmtEdges(g, yes, b1, k, x);
    }
    assert EdgesAdded(g, no, b2, x) by {
      StmtEdges(g, no, b2, k, x);
    }
  }

  lemma {:induction false} SwitchEdges(g: Graph, arms: Arms, hasDefault: bool, base: nat, k: nat, x: seq<nat>)
    requires HoldsIn(g, Switch(arms, hasDefault), base, k, x)
    ensures EdgesAdded(g, Switch(arms, hasDefault), base, x)
    decreases Switch(arms, hasDefault), 0
  {
    EntriesCount(arms, base + 1);
    ArmsEdges(g, arms, base + 1, k, x);
  }

  lemma {:induction false} EntriesCount(arms: Arms, base: nat)
    ensures |Entries(arms, base)| == ArmsNumber(arms)
    decreases arms
  {
    if arms.More? {
      EntriesCount(arms.rest, base + Size(arms.s));
    }
  }

  lemma {:induction false} ArmsEdges(g: Graph, arms: Arms, base: nat, k: nat, x: seq<nat>)
    requires HoldsArms(g, arms, base, k, x) && base + ArmsSize(arms) <= |g| && |x| <= 1
    ensures OutEdges(g, base + ArmsSize(arms))
      == OutEdges(g, base) + ArmsSize(arms) + ArmsDecisions(arms) + if x == [] then 0 else ArmsCalls(arms)
    decreases arms, 2
  {
    match arms
    case Last(s) => StmtEdges(g, s, base, k, x);
    case More(s, rest) =>
      StmtEdges(g, s, base, k, x);
      ArmsEdges(g, rest, base + Size(s), k, x);
  }

  lemma {:induction false} HeldEdges(h: Graph, s: Stmt, ret: nat, x: seq<nat>)
    requires ret == 1 + Size(s) && Frames(h, Code(s, ret, x), x) && h[0] == [] && |x| <= 1
    ensures NumEdges(h) == Size(s) + Decisions(s) + if x == [] then 0 else Calls(s) + 1
  {
    CodeHolds(h, s, ret, x);
    StmtEdges(h, s, 1, ret, x);
    assert OutEdges(h, 1) == OutEdges(h, 0) + |h[0]| == 0;
    assert OutEdges(h, ret + 1) == OutEdges(h, ret) + |h[ret]|;
    assert NumEdges(h) == OutEdges(h, ret + 1) + |h[ret + 1]|;
  }

  /** A function compiled from structured loop-free code is recorded with the number of its decisions
      minus one, because the exit block's edges are cleared and the block is still counted, and in the
      run with exceptions with its decisions and its calls. */
  lemma {:induction false} StructuredCyclomatic(f: FunctionData, s: Stmt)
    ensures WellFormed(FunctionGraph(s))
    ensures Measured(f, FunctionGraph(s)).cyclomatic == Decisions(s) - 1
    ensures Measured(f, FunctionGraph(s)).cyclomaticE == Decisions(s) + Calls(s)
  {
    var g, ret := FunctionGraph(s), 1 + Size(s);
    SearchedFrames(g, s, ret);
    EntryEmpty(g);
    assert NumEdges(KeepingExit(g)) == Size(s) + Decisions(s) + Calls(s) + 1 by {
      HeldEdges(KeepingExit(g), s, ret, [ret + 1]);
    }
    assert NumEdges(DroppingExit(g)) == Size(s) + Decisions(s) by {
      HeldEdges(DroppingExit(g), s, ret, []);
    }
  }

  lemma {:induction false} EntryEmpty(g: Graph)
    requires WellFormed(g) && |g| >= 2
    ensures KeepingExit(g)[0] == [] && DroppingExit(g)[0] == []
  {
    EntryIsolated(g);
  }
}
