/** Functions compiled from structured code, as the analyser sees and records them. */
module FunctionMeasures {
  import opened Graphs
  import opened Sums
  import opened AcyclicNpath
  import opened Structured
  import opened Analysis
  import opened ReportedMeasures

  // ---------- whole functions

  /** The rows of the function's code, from block 1 on, where calls lead to the return block and to x. */
  function Code(s: Stmt, ret: nat, x: seq<nat>): (code: Graph)
    ensures |code| == Size(s) && forall i :: 0 <= i < Size(s) ==> code[i] == Row(s, 1, ret, x, 1 + i)
  {
    seq(Size(s), i requires 0 <= i < Size(s) => Row(s, 1, ret, x, 1 + i))
  }

  /** A function: entry block 0, its code, a return block, which leads to x, and the exit block. */
  function Framed(code: Graph, x: seq<nat>): (g: Graph)
    ensures |g| == |code| + 3
  {
    [[1]] + code + [x, []]
  }

  function FunctionGraph(s: Stmt): (g: Graph)
    ensures |g| == Size(s) + 3
  {
    var exit := 2 + Size(s);
    Framed(Code(s, exit - 1, [exit]), [exit])
  }

  /** The blocks behind the entry are those of a framed function. */
  ghost predicate Frames(g: Graph, code: Graph, x: seq<nat>) {
    && |g| == |code| + 3 && g[|code| + 1] == x && g[|code| + 2] == []
    && forall i :: 0 <= i < |code| ==> g[1 + i] == code[i]
  }

  ghost predicate Upward(g: Graph) {
    forall u :: 0 <= u < |g| ==> UpwardRow(g[u], u, |g|)
  }

  ghost predicate UpwardRow(row: seq<nat>, u: nat, n: nat) {
    Ascending(row) && forall v :: v in row ==> u < v < n
  }

  lemma UpwardAcyclic(g: Graph)
    requires Upward(g)
    ensures WellFormed(g) && Acyclic(g)
  {
    forall u | 0 <= u < |g|
      ensures Ascending(g[u]) && Below(g[u], |g|)
    {
      assert UpwardRow(g[u], u, |g|);
      assert forall i :: 0 <= i < |g[u]| ==> g[u][i] in g[u];
    }
    var rank := seq(|g|, u requires 0 <= u < |g| => |g| - u);
    forall u: nat, v: nat | HasEdge(g, u, v) && v < |g|
      ensures rank[v] < rank[u]
    {
      assert UpwardRow(g[u], u, |g|);
    }
    RankedIsAcyclic(g, rank);
  }

  // ---------- the code by rows

  ghost predicate ForwardCode(code: Graph) {
    forall i :: 0 <= i < |code| ==> ForwardRow(code[i], 1 + i, 1 + |code|, [2 + |code|])
  }

  /** Clearing the exit block v turns every row of the code into that of code2. */
  ghost predicate CodeClears(code: Graph, v: nat, code2: Graph) {
    |code2| == |code| && forall i :: 0 <= i < |code| ==> Clears(code[i], v, code2[i])
  }

  lemma {:induction false} CodeForward(s: Stmt, ret: nat)
    requires ret == 1 + Size(s)
    ensures ForwardCode(Code(s, ret, [ret + 1]))
  {
    var code := Code(s, ret, [ret + 1]);
    forall i | 0 <= i < |code|
      ensures ForwardRow(code[i], 1 + i, ret, [ret + 1])
    {
      StmtForward(s, 1, ret, [ret + 1], 1 + i);
    }
  }

  lemma {:induction false} RowCleared(s: Stmt, ret: nat, i: nat, row: seq<nat>, row2: seq<nat>)
    requires ret == 1 + Size(s) && i < Size(s)
    requires row == Row(s, 1, ret, [ret + 1], 1 + i) && row2 == Row(s, 1, ret, [], 1 + i)
    ensures Clears(row, ret + 1, row2)
  {
    StmtCleared(s, 1, ret, ret + 1, 1 + i);
  }

  lemma {:induction false} CodeCleared(s: Stmt, ret: nat)
    requires ret == 1 + Size(s)
    ensures CodeClears(Code(s, ret, [ret + 1]), ret + 1, Code(s, ret, []))
  {
    var code, code2 := Code(s, ret, [ret + 1]), Code(s, ret, []);
    forall i | 0 <= i < |code|
      ensures Clears(code[i], ret + 1, code2[i])
    {
      RowCleared(s, ret, i, code[i], code2[i]);
    }
  }

  lemma {:induction false} CodeHolds(h: Graph, s: Stmt, ret: nat, x: seq<nat>)
    requires ret == 1 + Size(s) && Frames(h, Code(s, ret, x), x)
    ensures Holds(h, s, 1, ret, x)
  {
    forall u | 1 <= u < ret
      ensures h[u] == Row(s, 1, ret, x, u)
    {
      assert h[1 + (u - 1)] == Code(s, ret, x)[u - 1];
    }
    StmtHolds(h, s, 1, ret, x);
  }

  // ---------- the two graphs that are searched

  lemma FramedUpward(code: Graph)
    requires ForwardCode(code)
    ensures Upward(Framed(code, [2 + |code|])) && Frames(Framed(code, [2 + |code|]), code, [2 + |code|])
  {
    var g := Framed(code, [2 + |code|]);
    forall u | 0 <= u < |g|
      ensures UpwardRow(g[u], u, |g|)
    {
      if 1 <= u < 1 + |code| {
        assert ForwardRow(code[u - 1], 1 + (u - 1), 1 + |code|, [2 + |code|]);
      }
    }
  }

  lemma KeptFrames(g: Graph, code: Graph, x: seq<nat>)
    requires WellFormed(g) && Upward(g) && Frames(g, code, x)
    ensures Frames(Cleared(g, 0), code, x)
  {
    forall u | 0 < u < |g|
      ensures Cleared(g, 0)[u] == g[u]
    {
      assert UpwardRow(g[u], u, |g|);
      WithoutAbsent(g[u], 0);
    }
  }

  lemma DroppedFrames(k: Graph, code: Graph, code2: Graph)
    requires WellFormed(k) && Frames(k, code, [2 + |code|]) && CodeClears(code, 2 + |code|, code2)
    ensures Frames(Cleared(k, 2 + |code|), code2, [])
  {
    forall i | 0 <= i < |code|
      ensures Cleared(k, 2 + |code|)[1 + i] == code2[i]
    {
      assert Clears(code[i], 2 + |code|, code2[i]);
    }
    assert k[|code| + 1][..0] == [];
  }

  /** The return block is worth one path in both graphs, the exit block as well. */
  lemma ReturnWorth(h: Graph, w: seq<nat>, ret: nat, x: seq<nat>)
    requires WellFormed(h) && Acyclic(h) && w == PathCounts(h) && ret + 1 < |h|
    requires h[ret] == x && h[ret + 1] == [] && (x == [] || x == [ret + 1])
    ensures Below(x, |w|) && w[ret] == 1 && SumAt(w, x) == if x == [] then 0 else 1
  {
    if x != [] {
      PathCountsWeigh(h);
      SumSingle(w, ret + 1);
      assert WeighsAt(h[ret], w, ret);
    }
  }

  lemma {:induction false} FramedCount(h: Graph, s: Stmt, ret: nat, x: seq<nat>)
    requires WellFormed(h) && Acyclic(h) && |h| == ret + 2 && ret == 1 + Size(s) && Holds(h, s, 1, ret, x)
    requires h[ret] == x && h[ret + 1] == [] && (x == [] || x == [ret + 1])
    ensures NpathOf(h) == Npath(s) + if x == [] then 0 else Throws(s)
  {
    var w := PathCounts(h);
    assert NpathOf(h) == w[1] by {
      NpathCountsPaths(h, 1);
    }
    PathCountsWeigh(h);
    ReturnWorth(h, w, ret, x);
    StmtCount(h, w, s, 1, ret, x, 0, |h|);
  }

  lemma {:induction false} HeldCount(h: Graph, s: Stmt, ret: nat, x: seq<nat>)
    requires WellFormed(h) && Acyclic(h) && ret == 1 + Size(s) && (x == [] || x == [ret + 1])
    requires Frames(h, Code(s, ret, x), x)
    ensures NpathOf(h) == Npath(s) + if x == [] then 0 else Throws(s)
  {
    CodeHolds(h, s, ret, x);
    FramedCount(h, s, ret, x);
  }

  lemma KeptAndDropped(g: Graph, code: Graph, code2: Graph)
    requires WellFormed(g) && Upward(g) && Frames(g, code, [2 + |code|]) && CodeClears(code, 2 + |code|, code2)
    ensures Acyclic(KeepingExit(g)) && Frames(KeepingExit(g), code, [2 + |code|])
    ensures Acyclic(DroppingExit(g)) && Frames(DroppingExit(g), code2, [])
  {
    UpwardAcyclic(g);
    AnalysedAcyclic(g);
    KeptFrames(g, code, [2 + |code|]);
    DroppedFrames(KeepingExit(g), code, code2);
  }

  lemma {:induction false} CompiledFrames(g: Graph, s: Stmt)
    requires g == FunctionGraph(s)
    ensures Upward(g) && Frames(g, Code(s, 1 + Size(s), [2 + Size(s)]), [2 + Size(s)])
  {
    CodeForward(s, 1 + Size(s));
    FramedUpward(Code(s, 1 + Size(s), [2 + Size(s)]));
  }

  /** What the two runs see of the compiled function. */
  lemma {:induction false} SearchedFrames(g: Graph, s: Stmt, ret: nat)
    requires g == FunctionGraph(s) && ret == 1 + Size(s)
    ensures WellFormed(g)
    ensures Acyclic(KeepingExit(g)) && Frames(KeepingExit(g), Code(s, ret, [ret + 1]), [ret + 1])
    ensures Acyclic(DroppingExit(g)) && Frames(DroppingExit(g), Code(s, ret, []), [])
  {
    var exit := [ret + 1];
    var code, code2 := Code(s, ret, exit), Code(s, ret, []);
    assert Upward(g) && Frames(g, code, exit) by {
      CompiledFrames(g, s);
    }
    UpwardAcyclic(g);
    assert CodeClears(code, ret + 1, code2) by {
      CodeCleared(s, ret);
    }
    assert 2 + |code| == ret + 1;
    KeptAndDropped(g, code, code2);
  }

  /** A function compiled from structured loop-free code is recorded with its compositional NPATH when
      the exit is cleared, and with the ways into its calls added when it is kept. */
  lemma {:induction false} StructuredMeasures(f: FunctionData, s: Stmt)
    ensures WellFormed(FunctionGraph(s))
    ensures Measured(f, FunctionGraph(s)).npath == Npath(s)
    ensures Measured(f, FunctionGraph(s)).npathE == Npath(s) + Throws(s)
  {
    var g, ret := FunctionGraph(s), 1 + Size(s);
    SearchedFrames(g, s, ret);
    HeldCount(KeepingExit(g), s, ret, [ret + 1]);
    HeldCount(DroppingExit(g), s, ret, []);
  }

  /** The delta of such a function is the number of ways into its calls, and so it is printed exactly
      when there is a call. */
  lemma {:induction false} StructuredDelta(f: FunctionData, s: Stmt)
    ensures WellFormed(FunctionGraph(s))
    ensures Measured(f, FunctionGraph(s)).npathE - Measured(f, FunctionGraph(s)).npath == Throws(s)
    ensures Throws(s) > 0 <==> HasCall(s)
  {
    StructuredMeasures(f, s);
    ThrowsIffCall(s);
  }

  // ---------- the functions of the system test

  const IF_ASSIGNS := If(Test, Simple)
  const IF_CALLS := If(Test, Call)
  const IF_ELSE := IfElse(Test, Simple, Simple)
  const IF_ELSE_2 := IfElse(Test, IF_ELSE, IF_ELSE)
  const EXAMPLE_1 := Then(IF_ASSIGNS, Then(IF_ASSIGNS, Then(IF_ASSIGNS, Then(IF_ASSIGNS,
                          If(And(Test, And(Test, And(Test, Test))), Simple)))))
  const EXAMPLE_2 := Then(IF_CALLS, Then(IF_CALLS, Then(IF_CALLS, IF_CALLS)))
  const EXAMPLE_3 := Switch(More(Simple, More(Simple, More(Simple, More(Simple, Last(Simple))))), true)
  const EXAMPLE_4 := Then(IF_ASSIGNS, IF_ASSIGNS)

  datatype Expected = Expected(code: Stmt, npath: nat, npathE: nat)

  /** The table of the system test: code, NPATH, NPATH with exceptions. */
  const SYSTEM_TEST := [
    Expected(Simple, 1, 1), Expected(IF_ASSIGNS, 2, 2), Expected(IF_CALLS, 2, 3), Expected(IF_ELSE, 2, 2),
    Expected(IF_ELSE_2, 4, 4), Expected(EXAMPLE_1, 80, 80), Expected(EXAMPLE_2, 16, 31),
    Expected(EXAMPLE_3, 5, 5), Expected(EXAMPLE_4, 4, 4)
  ]

  lemma {:induction false} ExampleNumbers(i: nat)
    requires i < |SYSTEM_TEST|
    ensures Npath(SYSTEM_TEST[i].code) == SYSTEM_TEST[i].npath
    ensures Npath(SYSTEM_TEST[i].code) + Throws(SYSTEM_TEST[i].code) == SYSTEM_TEST[i].npathE
  {
    assert Npath(IF_ASSIGNS) == 2 && Throws(IF_ASSIGNS) == 0;
    assert Npath(IF_CALLS) == 2 && Throws(IF_CALLS) == 1;
    assert FalseWays(And(Test, And(Test, And(Test, Test)))) == 4;
    assert Npath(EXAMPLE_1) == 80 && Throws(EXAMPLE_1) == 0;
    assert Npath(EXAMPLE_2) == 16 && Throws(EXAMPLE_2) == 15;
    assert Npath(EXAMPLE_3) == 5 && Throws(EXAMPLE_3) == 0;
  }

  ghost predicate Records(f: FunctionData, e: Expected) {
    && WellFormed(FunctionGraph(e.code))
    && Measured(f, FunctionGraph(e.code)).npath == e.npath
    && Measured(f, FunctionGraph(e.code)).npathE == e.npathE
  }

  lemma {:induction false} RecordsNumbers(f: FunctionData, e: Expected)
    requires Npath(e.code) == e.npath && Npath(e.code) + Throws(e.code) == e.npathE
    ensures Records(f, e)
  {
    StructuredMeasures(f, e.code);
  }

  /** Every row of that table is what the analyser records for the code. */
  lemma {:induction false} ExpectedValues(f: FunctionData, i: nat)
    requires i < |SYSTEM_TEST|
    ensures Records(f, SYSTEM_TEST[i])
  {
    ExampleNumbers(i);
    RecordsNumbers(f, SYSTEM_TEST[i]);
  }
}
