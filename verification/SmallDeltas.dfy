/** The exception delta of flow graphs with four and five blocks, where an exit row that leads back into
    the function need not make it negative. */
module SmallDeltas {
  import opened Graphs
  import opened Sums
  import opened DepthFirst
  import opened SearchTheory
  import opened CyclicNpath
  import opened EntryTree
  import opened Analysis
  import opened ReportedMeasures

  // ---------- the value of a block, target by target

  /** The sum over the successors below n. */
  ghost function Upto(row: seq<nat>, done: seq<nat>, c: seq<nat>, n: nat): nat
    requires n <= |c|
  {
    if n == 0 then 0
    else
      var acc := Upto(row, done, c, n - 1);
      if n - 1 !in row then acc else if n - 1 in done then acc + c[n - 1] else 1
  }

  lemma {:induction false} FoldFrom(row: seq<nat>, i: nat, done: seq<nat>, c: seq<nat>, n: nat)
    requires Ascending(row) && Below(row, |c|) && i <= |row| && n <= |c|
    requires (forall j :: 0 <= j < i ==> row[j] < n) && forall j :: i <= j < |row| ==> row[j] >= n
    ensures Fold(row, i, done, c, Upto(row, done, c, n)) == Upto(row, done, c, |c|)
    decreases |c| - n
  {
    if n < |c| {
      if i < |row| && row[i] == n {
        assert n in row;
        FoldFrom(row, i + 1, done, c, n + 1);
      } else {
        assert n !in row;
        FoldFrom(row, i, done, c, n + 1);
      }
    }
  }

  lemma {:induction false} ValueUpto(g: Graph, order: seq<nat>, c: seq<nat>, u: nat)
    requires Tree(g, order, c) && u in order && u != 0
    ensures u < |g| && c[u] == AtLeastOne(Upto(g[u], Before(order, u), c, |g|)) && 0 !in g[u]
  {
    ValueOf(g, order, c, u);
    FoldFrom(g[u], 0, Before(order, u), c, 0);
  }

  /** 1 for a successor. */
  function To(row: seq<nat>, v: nat): nat {
    if v in row then 1 else 0
  }

  lemma {:induction false} UptoFour(row: seq<nat>, done: seq<nat>, c: seq<nat>)
    requires |c| >= 4 && 0 !in row
    ensures Upto(row, done, c, 2) == if 1 !in row then 0 else if 1 in done then c[1] else 1
    ensures Upto(row, done, c, 3) == if 2 !in row then Upto(row, done, c, 2)
      else if 2 in done then Upto(row, done, c, 2) + c[2] else 1
    ensures Upto(row, done, c, 4) == if 3 !in row then Upto(row, done, c, 3)
      else if 3 in done then Upto(row, done, c, 3) + c[3] else 1
  {
    assert Upto(row, done, c, 1) == 0;
  }

  lemma {:induction false} UptoFive(row: seq<nat>, done: seq<nat>, c: seq<nat>)
    requires |c| >= 5
    ensures Upto(row, done, c, 5) == if 4 !in row then Upto(row, done, c, 4)
      else if 4 in done then Upto(row, done, c, 4) + c[4] else 1
  {
  }

  // ---------- four blocks

  /** The search's value of block 1, before a self-loop doubles it. */
  ghost function ValueOfOne(g: Graph): nat
    requires WellFormed(g) && |g| >= 2 && Isolated(g, 0)
  {
    BlockOne(g).complexity[1]
  }

  lemma {:induction false} FourKept(g: Graph)
    requires WellFormed(g) && |g| == 4 && Isolated(g, 0)
    ensures ValueOfOne(g) >= To(g[1], 1) + To(g[1], 2)
  {
    var order, c := TreeOfOne(g);
    RootSees(g, order);
    ValueUpto(g, order, c, 1);
    UptoFour(g[1], Before(order, 1), c);
    if 2 in g[1] {
      ValueUpto(g, order, c, 2);
    }
    if 3 in g[1] {
      ValueUpto(g, order, c, 3);
    }
  }

  lemma {:induction false} FourDropped(g: Graph)
    requires WellFormed(g) && |g| == 4 && Isolated(g, 0) && Isolated(g, 3)
    ensures ValueOfOne(g) <= AtLeastOne(To(g[1], 1) + To(g[1], 2))
  {
    var order, c := TreeOfOne(g);
    RootSees(g, order);
    ValueUpto(g, order, c, 1);
    UptoFour(g[1], Before(order, 1), c);
    if 2 in g[1] {
      EarlierStill(order, 1, 2, 1);
      ValueUpto(g, order, c, 2);
      UptoFour(g[2], Before(order, 2), c);
    }
  }

  // ---------- five blocks, with the exit cleared

  /** A second way through the branch at block 1. */
  ghost predicate Extra(g: Graph)
    requires |g| == 5
  {
    || (2 in g[1] && 3 in g[2] && (1 in g[2] || 2 in g[2]))
    || (3 in g[1] && 1 in g[3] && 2 in g[3] && 3 !in g[3] && (2 in g[1] ==> 3 !in g[2]))
  }

  /** A block from which only unfinished blocks are reached directly. */
  lemma {:induction false} BacksOnly(g: Graph, order: seq<nat>, c: seq<nat>, u: nat)
    requires Tree(g, order, c) && |g| == 5 && Isolated(g, 4) && u in order && u != 0
    requires forall y :: 1 <= y <= 3 ==> y !in Before(order, u)
    ensures c[u] == 1
  {
    ValueUpto(g, order, c, u);
    UptoFour(g[u], Before(order, u), c);
    UptoFive(g[u], Before(order, u), c);
  }

  lemma {:induction false} TwoDropped(g: Graph, order: seq<nat>, c: seq<nat>)
    requires Tree(g, order, c) && |g| == 5 && Isolated(g, 4) && 2 in Before(order, 1)
    ensures c[2] <= if 3 in g[2] && (1 in g[2] || 2 in g[2]) && 3 in Before(order, 2) then 2 else 1
  {
    EarlierStill(order, 1, 2, 1);
    ValueUpto(g, order, c, 2);
    UptoFour(g[2], Before(order, 2), c);
    UptoFive(g[2], Before(order, 2), c);
    if 3 in Before(order, 2) {
      EarlierStill(order, 2, 3, 1);
      EarlierStill(order, 2, 3, 2);
      BacksOnly(g, order, c, 3);
    }
  }

  lemma {:induction false} ThreeDropped(g: Graph, order: seq<nat>, c: seq<nat>)
    requires Tree(g, order, c) && |g| == 5 && Isolated(g, 4) && 3 in Before(order, 1)
    ensures c[3] <= if 1 in g[3] && 2 in g[3] && 3 !in g[3] && 2 in Before(order, 3) then 2 else 1
  {
    EarlierStill(order, 1, 3, 1);
    ValueUpto(g, order, c, 3);
    UptoFour(g[3], Before(order, 3), c);
    UptoFive(g[3], Before(order, 3), c);
    if 2 in Before(order, 3) {
      EarlierStill(order, 3, 2, 1);
      EarlierStill(order, 3, 2, 3);
      BacksOnly(g, order, c, 2);
    }
  }

  /** Block 2, the first successor of block 1 besides itself, finishes after its own successors. */
  lemma {:induction false} TwoOpens(g: Graph, order: seq<nat>) returns (s: Search)
    requires WellFormed(g) && |g| == 5 && Isolated(g, 0) && 2 in g[1] && order == BlockOne(g).order
    ensures Opens(g, s, 2, 0, order)
    ensures forall y :: 0 <= y < 5 ==> (s.color[y].Grey? <==> y == 1 || y == 2) && (y > 2 ==> s.color[y].White?)
  {
    var s1 := OpenOne(g);
    s := Descend(g, s1, 1, order, 2, {});
  }

  lemma {:induction false} TwoSees(g: Graph, order: seq<nat>)
    requires WellFormed(g) && |g| == 5 && Isolated(g, 0) && 2 in g[1] && order == BlockOne(g).order
    ensures Distinct(order) && 2 in order && 1 !in Before(order, 2)
    ensures (3 in g[2] ==> 3 in Before(order, 2)) && (4 in g[2] ==> 4 in Before(order, 2))
  {
    var s := TwoOpens(g, order);
    Sees(g, s, 2, order);
  }

  lemma {:induction false} FiveDropped(g: Graph)
    requires WellFormed(g) && |g| == 5 && Isolated(g, 0) && Isolated(g, 4)
    ensures var n := To(g[1], 1) + To(g[1], 2) + To(g[1], 3);
      ValueOfOne(g) <= AtLeastOne(n) || (Extra(g) && ValueOfOne(g) <= n + 1)
  {
    var order, c := TreeOfOne(g);
    RootSees(g, order);
    ValueUpto(g, order, c, 1);
    UptoFour(g[1], Before(order, 1), c);
    UptoFive(g[1], Before(order, 1), c);
    if 2 in g[1] {
      TwoDropped(g, order, c);
      TwoSees(g, order);
    }
    if 3 in g[1] {
      ThreeDropped(g, order, c);
    }
    if 2 in g[1] && 3 in g[1] && 3 in Before(order, 2) {
      EarlierStill(order, 2, 3, 2);
    }
  }

  // ---------- five blocks, with the exit kept

  /** The exit rows for which five blocks are enough to break the assertion are the others. */
  predicate Harmless(row: seq<nat>) {
    3 !in row || (4 !in row && (1 in row || 2 in row))
  }

  lemma {:induction false} Positive(g: Graph, order: seq<nat>, c: seq<nat>, u: nat)
    requires Tree(g, order, c) && u in order && u != 0
    ensures u < |c| && c[u] >= 1
  {
    ValueOf(g, order, c, u);
  }

  lemma {:induction false} EachCounts(g: Graph, order: seq<nat>, c: seq<nat>)
    requires Tree(g, order, c) && |g| == 5 && forall y :: y in g[1] && y != 1 ==> y in Before(order, 1)
    ensures c[1] == AtLeastOne(To(g[1], 1) + To(g[1], 2) * c[2] + To(g[1], 3) * c[3] + To(g[1], 4) * c[4])
  {
    ValueUpto(g, order, c, 1);
    UptoFour(g[1], Before(order, 1), c);
    UptoFive(g[1], Before(order, 1), c);
  }

  lemma {:induction false} AtLeastEach(g: Graph)
    requires WellFormed(g) && |g| == 5 && Isolated(g, 0)
    ensures var c := BlockOne(g).complexity;
      && (2 in g[1] ==> c[2] >= 1) && (3 in g[1] ==> c[3] >= 1)
      && ValueOfOne(g) >= To(g[1], 1) + To(g[1], 2) * c[2] + To(g[1], 3) * c[3] + To(g[1], 4)
  {
    var order, c := TreeOfOne(g);
    RootSees(g, order);
    EachCounts(g, order, c);
    if 2 in g[1] {
      Positive(g, order, c, 2);
    }
    if 3 in g[1] {
      Positive(g, order, c, 3);
    }
    if 4 in g[1] {
      Positive(g, order, c, 4);
    }
  }

  lemma {:induction false} TwoKept(g: Graph)
    requires WellFormed(g) && |g| == 5 && Isolated(g, 0) && 2 in g[1]
    requires (1 in g[2] || 2 in g[2]) && (3 in g[2] || 4 in g[2])
    ensures BlockOne(g).complexity[2] >= 2
  {
    var order, c := TreeOfOne(g);
    TwoSees(g, order);
    ValueUpto(g, order, c, 2);
    UptoFour(g[2], Before(order, 2), c);
    UptoFive(g[2], Before(order, 2), c);
    if 3 in g[2] {
      ValueUpto(g, order, c, 3);
    }
    if 4 in g[2] {
      ValueUpto(g, order, c, 4);
    }
  }

  /** Block 3 finishes after its own successors, and after block 2 if it does not hang below it. */
  lemma {:induction false} ThreeSees(g: Graph, order: seq<nat>)
    requires WellFormed(g) && |g| == 5 && Isolated(g, 0) && 3 in g[1] && order == BlockOne(g).order
    requires 2 in g[1] ==> 3 !in g[2] && (4 !in g[2] || 3 !in g[4])
    ensures Distinct(order) && 3 in order && 1 !in Before(order, 3)
    ensures (2 in g[3] ==> 2 in Before(order, 3)) && (4 in g[3] ==> 4 in Before(order, 3))
  {
    var s1 := OpenOne(g);
    var inside: set<nat> := if 2 !in g[1] then {} else if 4 in g[2] then {2, 4} else {2};
    var s3 := Descend(g, s1, 1, order, 3, inside);
    Sees(g, s3, 3, order);
  }

  lemma {:induction false} ThreeKept(g: Graph)
    requires WellFormed(g) && |g| == 5 && Isolated(g, 0) && 3 in g[1]
    requires 1 in g[3] && 2 in g[3] && 3 !in g[3]
    requires 2 in g[1] ==> 3 !in g[2] && (4 !in g[2] || 3 !in g[4])
    ensures BlockOne(g).complexity[3] >= 2
  {
    var order, c := TreeOfOne(g);
    ThreeSees(g, order);
    ValueUpto(g, order, c, 3);
    UptoFour(g[3], Before(order, 3), c);
    UptoFive(g[3], Before(order, 3), c);
    ValueUpto(g, order, c, 2);
    if 4 in g[3] {
      ValueUpto(g, order, c, 4);
    }
  }

  /** From block 2 straight to the exit, and from there to block 3 and back. */
  lemma {:induction false} ExitSees(g: Graph, order: seq<nat>)
    requires WellFormed(g) && |g| == 5 && Isolated(g, 0) && 2 in g[1] && order == BlockOne(g).order
    requires 4 in g[2] && 1 !in g[2] && 2 !in g[2] && 3 !in g[2] && 3 in g[4]
    ensures Distinct(order) && 4 in order && 3 in Before(order, 4)
    ensures 1 !in Before(order, 4) && 2 !in Before(order, 4)
  {
    var s2 := TwoOpens(g, order);
    var s4 := Descend(g, s2, 2, order, 4, {});
    Sees(g, s4, 4, order);
  }

  lemma {:induction false} ExitKept(g: Graph)
    requires WellFormed(g) && |g| == 5 && Isolated(g, 0) && 2 in g[1]
    requires 4 in g[2] && 1 !in g[2] && 2 !in g[2] && 3 !in g[2]
    requires 3 in g[4] && 4 !in g[4] && (1 in g[4] || 2 in g[4])
    ensures BlockOne(g).complexity[2] >= 2
  {
    var order, c := TreeOfOne(g);
    ExitSees(g, order);
    ValueUpto(g, order, c, 4);
    UptoFour(g[4], Before(order, 4), c);
    UptoFive(g[4], Before(order, 4), c);
    ValueUpto(g, order, c, 3);
    assert c[4] >= 2;
    TwoSees(g, order);
    ValueUpto(g, order, c, 2);
    UptoFour(g[2], Before(order, 2), c);
    UptoFive(g[2], Before(order, 2), c);
  }

  lemma {:induction false} FiveKept(g: Graph)
    requires WellFormed(g) && |g| == 5 && Isolated(g, 0) && Harmless(g[4])
    ensures var n := To(g[1], 1) + To(g[1], 2) + To(g[1], 3);
      ValueOfOne(g) >= n && (Extra(g) ==> ValueOfOne(g) >= n + 1)
  {
    AtLeastEach(g);
    if Extra(g) {
      if 2 in g[1] && 3 in g[2] {
        TwoKept(g);
      } else if 2 !in g[1] || 4 !in g[2] || 3 !in g[4] {
        ThreeKept(g);
      } else if 1 in g[2] || 2 in g[2] {
        TwoKept(g);
      } else {
        ExitKept(g);
      }
    }
  }

  // ---------- the assertion

  lemma {:induction false} OneCleared(k: Graph, x: nat)
    requires WellFormed(k) && 1 < x < |k| && Isolated(k, 0)
    ensures var d := Cleared(k, x);
      && WellFormed(d) && |d| == |k| && Isolated(d, 0) && Isolated(d, x)
      && forall u, v :: 0 <= u < |k| && u != x && v != x ==> (v in d[u] <==> v in k[u])
  {
    ClearedWellFormed(k, x);
    ClearedIsolated(k, x);
  }

  lemma {:induction false} OneValue(g: Graph)
    requires WellFormed(g) && |g| >= 2 && Isolated(g, 0)
    ensures ValueOfOne(g) >= 1 && NpathOf(g) == (if 1 in g[1] then 2 else 1) * ValueOfOne(g)
  {
    var order, c := TreeOfOne(g);
    Positive(g, order, c, 1);
  }

  lemma {:induction false} ValuesCompare(k: Graph, d: Graph)
    requires WellFormed(k) && |k| >= 2 && Isolated(k, 0) && WellFormed(d) && |d| >= 2 && Isolated(d, 0)
    requires (1 in k[1] <==> 1 in d[1]) && ValueOfOne(k) >= ValueOfOne(d)
    ensures NpathOf(k) >= NpathOf(d)
  {
    OneValue(k);
    OneValue(d);
  }

  lemma {:induction false} FourCompare(k: Graph)
    requires WellFormed(k) && |k| == 4 && Isolated(k, 0)
    ensures WellFormed(Cleared(k, 3)) && NpathOf(k) >= NpathOf(Cleared(k, 3))
  {
    var d := Cleared(k, 3);
    OneCleared(k, 3);
    FourKept(k);
    FourDropped(d);
    OneValue(k);
    ValuesCompare(k, d);
  }

  lemma {:induction false} FiveCompare(k: Graph)
    requires WellFormed(k) && |k| == 5 && Isolated(k, 0) && Harmless(k[4])
    ensures WellFormed(Cleared(k, 4)) && NpathOf(k) >= NpathOf(Cleared(k, 4))
  {
    var d := Cleared(k, 4);
    OneCleared(k, 4);
    FiveKept(k);
    FiveDropped(d);
    OneValue(k);
    ValuesCompare(k, d);
  }

  /** With four blocks the commented-out assertion holds whatever the exit row. */
  lemma {:induction false} FourHold(g: Graph)
    requires WellFormed(g) && |g| == 4
    ensures DeltaHolds(g)
  {
    EntryIsolated(g);
    FourCompare(KeepingExit(g));
  }

  /** With five blocks it holds if the exit row is harmless. */
  lemma {:induction false} FiveHold(g: Graph)
    requires WellFormed(g) && |g| == 5 && Harmless(g[4])
    ensures DeltaHolds(g)
  {
    EntryIsolated(g);
    FiveCompare(KeepingExit(g));
  }
}
