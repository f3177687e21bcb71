/** How far the exception delta is never negative: for which rows of the exit block the commented-out
    assertion holds of every flow graph of that size. */
module DeltaBoundary {
  import opened Graphs
  import opened Sums
  import opened DepthFirst
  import opened SearchTheory
  import opened CyclicNpath
  import opened ExceptionDelta
  import opened EntryTree
  import opened Analysis
  import opened ReportedMeasures
  import opened SmallDeltas

  // ---------- blocks that no walk reaches

  lemma {:induction false} WalkStaysInside(g: Graph, inside: set<nat>, p: seq<nat>)
    requires Walk(g, p) && p[0] in inside
    requires forall u: nat, v: nat :: u in inside && HasEdge(g, u, v) ==> v in inside
    ensures p[|p| - 1] in inside
  {
    if |p| > 1 {
      WalkStaysInside(g, inside, p[1..]);
    }
  }

  lemma Unreachable(g: Graph, inside: set<nat>, u: nat, v: nat)
    requires u in inside && v !in inside
    requires forall x: nat, y: nat :: x in inside && HasEdge(g, x, y) ==> y in inside
    ensures !Reaches(g, u, v)
  {
    if Reaches(g, u, v) {
      var p :| Walk(g, p) && p[0] == u && p[|p| - 1] == v;
      WalkStaysInside(g, inside, p);
    }
  }

  // ---------- the value of a block with few successors

  predicate One(row: seq<nat>, a: nat) {
    |row| == 1 && row[0] == a
  }

  predicate Two(row: seq<nat>, a: nat, b: nat) {
    |row| == 2 && row[0] == a && row[1] == b
  }

  predicate Three(row: seq<nat>, a: nat, b: nat, d: nat) {
    |row| == 3 && row[0] == a && row[1] == b && row[2] == d
  }

  lemma FoldOne(row: seq<nat>, done: seq<nat>, c: seq<nat>, a: nat)
    requires One(row, a) && a < |c|
    ensures Below(row, |c|) && Fold(row, 0, done, c, 0) == if a in done then c[a] else 1
  {
    assert Fold(row, 1, done, c, if a in done then c[a] else 1) == if a in done then c[a] else 1;
  }

  lemma FoldTwo(row: seq<nat>, done: seq<nat>, c: seq<nat>, a: nat, b: nat)
    requires Two(row, a, b) && a < |c| && b < |c|
    ensures Below(row, |c|)
    ensures Fold(row, 0, done, c, 0) == if b !in done then 1 else c[b] + if a in done then c[a] else 1
  {
    var acc := if a in done then c[a] else 1;
    assert Fold(row, 0, done, c, 0) == Fold(row, 1, done, c, acc);
    var last := if b in done then acc + c[b] else 1;
    assert Fold(row, 1, done, c, acc) == Fold(row, 2, done, c, last) == last;
  }

  lemma FoldThree(row: seq<nat>, done: seq<nat>, c: seq<nat>, a: nat, b: nat, d: nat)
    requires Three(row, a, b, d) && a < |c| && b < |c| && d < |c| && a !in done
    ensures Below(row, |c|)
    ensures Fold(row, 0, done, c, 0) == if d !in done then 1 else c[d] + if b in done then 1 + c[b] else 1
  {
    var acc := if b in done then 1 + c[b] else 1;
    assert Fold(row, 0, done, c, 0) == Fold(row, 1, done, c, 1) == Fold(row, 2, done, c, acc);
    var last := if d in done then acc + c[d] else 1;
    assert Fold(row, 2, done, c, acc) == Fold(row, 3, done, c, last) == last;
  }

  /** If all successors but one, worth 1, are still being explored, the sum is at most 2. */
  lemma {:induction false} FoldBacks(row: seq<nat>, i: nat, done: seq<nat>, c: seq<nat>, w: nat, acc: nat)
    requires Ascending(row) && Below(row, |c|) && i <= |row| && w < |c| && c[w] <= 1
    requires forall y :: y in row && y != w ==> y !in done
    requires acc <= if i > 0 && row[i - 1] >= w then 2 else 1
    ensures Fold(row, i, done, c, acc) <= 2
    decreases |row| - i
  {
    if i < |row| {
      assert row[i] in row;
      FoldBacks(row, i + 1, done, c, w, if row[i] in done then acc + c[row[i]] else 1);
    }
  }

  // ---------- three kinds of flow graphs

  ghost predicate Formed(g: Graph, w: nat) {
    WellFormed(g) && Isolated(g, 0) && 4 <= w < |g| - 1
  }

  /** Block 1 branches to 3 and w; 3 loops to itself around 2; w leads back to 1 and to 2. */
  ghost predicate LateLaid(g: Graph, w: nat) {
    Formed(g, w) && Two(g[1], 3, w) && Two(g[3], 2, 3) && Two(g[w], 1, 2)
  }

  /** Block 1 branches to 2 and 3; both lead back to 1, 2 also to 4, and 3 also to 2. */
  ghost predicate ThirdLaid(g: Graph) {
    Formed(g, 4) && Two(g[1], 2, 3) && Two(g[2], 1, 4) && Two(g[3], 1, 2)
  }

  /** Block 1 branches to 3 and 4; 4 leads to 1, 2 and 3, and 2 leads to 4. */
  ghost predicate SecondLaid(g: Graph) {
    Formed(g, 4) && Two(g[1], 3, 4) && One(g[2], 4) && Three(g[4], 1, 2, 3)
  }

  // ---------- first kind: a block beyond 3 is found through the exit

  /** With the exit, block w is found below the loop that it would otherwise enter late. */
  lemma {:induction false} LateFirst(g: Graph, w: nat, x: nat, order: seq<nat>)
    requires x + 1 == |g| && LateLaid(g, w) && One(g[2], x) && w in g[x]
    requires order == BlockOne(g).order
    ensures Distinct(order) && w in order && 1 !in Before(order, w) && 2 !in Before(order, w)
  {
    assert g[1][0] == 3 && g[3][0] == 2 && g[2][0] == x;
    var s1 := OpenOne(g);
    var s3 := Descend(g, s1, 1, order, 3, {});
    var s2 := Descend(g, s3, 3, order, 2, {});
    var sx := Descend(g, s2, 2, order, x, {});
    Sees(g, sx, x, order);
    EarlierStill(order, x, w, 1);
    EarlierStill(order, x, w, 2);
  }

  lemma {:induction false} LateKept(g: Graph, w: nat, x: nat)
    requires x + 1 == |g| && LateLaid(g, w) && One(g[2], x) && w in g[x]
    ensures Run(g).complexity[1] <= 2
  {
    var order, c := TreeOfOne(g);
    LateFirst(g, w, x, order);
    ValueOf(g, order, c, w);
    FoldTwo(g[w], Before(order, w), c, 1, 2);
    ValueOf(g, order, c, 1);
    FoldTwo(g[1], Before(order, 1), c, 3, w);
    if 3 in Before(order, 1) {
      ValueOf(g, order, c, 3);
      FoldTwo(g[3], Before(order, 3), c, 2, 3);
    }
  }

  lemma {:induction false} LateDropped(g: Graph, w: nat)
    requires LateLaid(g, w) && g[2] == []
    ensures Run(g).complexity[1] == 3
  {
    var order, c := TreeOfOne(g);
    RootSees(g, order);
    assert g[1][0] == 3 && g[1][1] == w;
    assert 3 in g[1] && w in g[1];
    LoopCounts(g, order, c);
    LateCounts(g, order, c, w);
    ValueOf(g, order, c, 1);
    FoldTwo(g[1], Before(order, 1), c, 3, w);
  }

  lemma {:induction false} LoopCounts(g: Graph, order: seq<nat>, c: seq<nat>)
    requires Tree(g, order, c) && |g| > 3 && g[2] == [] && Two(g[3], 2, 3) && 3 in order
    ensures c[3] == 1
  {
    ValueOf(g, order, c, 3);
    FoldTwo(g[3], Before(order, 3), c, 2, 3);
  }

  /** A block that leads back to block 1 and to a block without successors. */
  lemma {:induction false} LateCounts(g: Graph, order: seq<nat>, c: seq<nat>, w: nat)
    requires Tree(g, order, c) && |g| > 2 && g[2] == [] && w in Before(order, 1) && 2 < w < |g| && Two(g[w], 1, 2)
    ensures c[w] == 2
  {
    EarlierStill(order, 1, w, 1);
    ValueOf(g, order, c, w);
    Unreachable(g, {2}, 2, w);
    assert g[w][1] == 2;
    ValueOf(g, order, c, 2);
    FoldTwo(g[w], Before(order, w), c, 1, 2);
  }

  // ---------- second kind: block 3 is found through the exit

  /** The exit leads to w, and otherwise only to blocks that are then being explored. */
  ghost predicate ExitTo(row: seq<nat>, w: nat, exit: nat) {
    w in row && forall y :: y in row ==> y == exit || 1 <= y <= w
  }

  lemma {:induction false} ThirdFirst(g: Graph, x: nat, order: seq<nat>)
    requires x + 1 == |g| && ThirdLaid(g) && One(g[4], x) && ExitTo(g[x], 3, x)
    requires order == BlockOne(g).order
    ensures Distinct(order) && 3 in order && 1 !in Before(order, 3) && 2 !in Before(order, 3)
    ensures x in order && forall y :: y in g[x] && y != 3 ==> y !in Before(order, x)
  {
    assert g[1][0] == 2 && g[2][1] == 4 && g[4][0] == x;
    var s1 := OpenOne(g);
    var s2 := Descend(g, s1, 1, order, 2, {});
    var s4 := Descend(g, s2, 2, order, 4, {});
    var sx := Descend(g, s4, 4, order, x, {});
    Sees(g, sx, x, order);
    EarlierStill(order, x, 3, 1);
    EarlierStill(order, x, 3, 2);
  }

  lemma {:induction false} ExitCounts(g: Graph, x: nat, order: seq<nat>, c: seq<nat>, w: nat)
    requires x + 1 == |g| && Tree(g, order, c) && w < |g| && c[w] <= 1 && x in order
    requires forall y :: y in g[x] && y != w ==> y !in Before(order, x)
    ensures c[x] <= 2
  {
    ValueOf(g, order, c, x);
    FoldBacks(g[x], 0, Before(order, x), c, w, 0);
  }

  lemma {:induction false} ThirdKept(g: Graph, x: nat)
    requires x + 1 == |g| && ThirdLaid(g) && One(g[4], x) && ExitTo(g[x], 3, x)
    ensures Run(g).complexity[1] <= 4
  {
    var order, c := TreeOfOne(g);
    ThirdFirst(g, x, order);
    ValueOf(g, order, c, 3);
    FoldTwo(g[3], Before(order, 3), c, 1, 2);
    ExitCounts(g, x, order, c, 3);
    ValueOf(g, order, c, 1);
    FoldTwo(g[1], Before(order, 1), c, 2, 3);
    if 2 in Before(order, 1) {
      ThirdLoop(g, x, order, c);
    }
  }

  lemma {:induction false} ThirdLoop(g: Graph, x: nat, order: seq<nat>, c: seq<nat>)
    requires x + 1 == |g| && Tree(g, order, c) && ThirdLaid(g) && One(g[4], x)
    requires c[x] <= 2 && 2 in Before(order, 1)
    ensures c[2] <= 3
  {
    EarlierStill(order, 1, 2, 1);
    ValueOf(g, order, c, 2);
    FoldTwo(g[2], Before(order, 2), c, 1, 4);
    if 4 in Before(order, 2) {
      ValueOf(g, order, c, 4);
      FoldOne(g[4], Before(order, 4), c, x);
    }
  }

  lemma {:induction false} ThirdLate(g: Graph, order: seq<nat>)
    requires ThirdLaid(g) && g[4] == [] && order == BlockOne(g).order
    ensures Distinct(order) && 3 in order && 2 in Before(order, 3)
  {
    assert g[1][0] == 2 && g[1][1] == 3 && g[3][1] == 2;
    var s1 := OpenOne(g);
    var s3 := Descend(g, s1, 1, order, 3, {2, 4});
    Sees(g, s3, 3, order);
  }

  lemma {:induction false} ThirdDropped(g: Graph)
    requires ThirdLaid(g) && g[4] == []
    ensures Run(g).complexity[1] == 5
  {
    var order, c := TreeOfOne(g);
    RootSees(g, order);
    assert g[1][0] == 2 && g[1][1] == 3;
    BranchCounts(g, order, c);
    ThirdLate(g, order);
    EarlierStill(order, 1, 3, 1);
    ValueOf(g, order, c, 3);
    FoldTwo(g[3], Before(order, 3), c, 1, 2);
    ValueOf(g, order, c, 1);
    FoldTwo(g[1], Before(order, 1), c, 2, 3);
  }

  lemma {:induction false} BranchCounts(g: Graph, order: seq<nat>, c: seq<nat>)
    requires Tree(g, order, c) && |g| > 4 && Two(g[2], 1, 4) && g[4] == [] && 2 in Before(order, 1)
    ensures c[2] == 2
  {
    EarlierStill(order, 1, 2, 1);
    ValueOf(g, order, c, 2);
    Unreachable(g, {4}, 4, 2);
    assert g[2][1] == 4;
    ValueOf(g, order, c, 4);
    FoldTwo(g[2], Before(order, 2), c, 1, 4);
  }

  // ---------- third kind: block 2 is found through the exit

  lemma {:induction false} SecondOpens(g: Graph, x: nat, order: seq<nat>) returns (s: Search)
    requires x + 1 == |g| && SecondLaid(g) && One(g[3], x) && order == BlockOne(g).order
    ensures Opens(g, s, x, 0, order)
    ensures forall y :: 0 <= y < |g| ==> (s.color[y].Grey? <==> y == 1 || y == 3 || y == x)
    ensures s.color[2].White? && s.color[4].White?
  {
    assert g[1][0] == 3 && g[3][0] == x;
    var s1 := OpenOne(g);
    var s3 := Descend(g, s1, 1, order, 3, {});
    s := Descend(g, s3, 3, order, x, {});
  }

  lemma {:induction false} SecondFirst(g: Graph, x: nat, order: seq<nat>)
    requires x + 1 == |g| && SecondLaid(g) && One(g[3], x) && ExitTo(g[x], 2, x)
    requires order == BlockOne(g).order
    ensures Distinct(order) && 4 in order && 1 !in Before(order, 4) && 3 !in Before(order, 4)
    ensures x in order && forall y :: y in g[x] && y != 2 ==> y !in Before(order, x)
  {
    var sx := SecondOpens(g, x, order);
    Sees(g, sx, x, order);
    assert g[2][0] == 4;
    var s2 := Descend(g, sx, x, order, 2, {});
    var s4 := Descend(g, s2, 2, order, 4, {});
    Sees(g, s4, 4, order);
  }

  lemma {:induction false} SecondKept(g: Graph, x: nat)
    requires x + 1 == |g| && SecondLaid(g) && One(g[3], x) && ExitTo(g[x], 2, x)
    ensures Run(g).complexity[1] <= 3
  {
    var order, c := TreeOfOne(g);
    SecondFirst(g, x, order);
    FourCounts(g, order, c);
    ValueOf(g, order, c, 1);
    FoldTwo(g[1], Before(order, 1), c, 3, 4);
    if 3 in Before(order, 1) {
      SecondExit(g, x, order, c);
      ValueOf(g, order, c, 3);
      FoldOne(g[3], Before(order, 3), c, x);
    }
  }

  lemma {:induction false} FourCounts(g: Graph, order: seq<nat>, c: seq<nat>)
    requires Tree(g, order, c) && |g| > 4 && Three(g[4], 1, 2, 3) && 4 in order
    requires 1 !in Before(order, 4) && 3 !in Before(order, 4)
    ensures c[4] == 1
  {
    ValueOf(g, order, c, 4);
    FoldThree(g[4], Before(order, 4), c, 1, 2, 3);
  }

  lemma {:induction false} SecondExit(g: Graph, x: nat, order: seq<nat>, c: seq<nat>)
    requires x + 1 == |g| && Tree(g, order, c) && |g| > 4 && One(g[2], 4) && c[4] == 1 && x in order
    requires forall y :: y in g[x] && y != 2 ==> y !in Before(order, x)
    ensures c[x] <= 2
  {
    if 2 in Before(order, x) {
      ValueOf(g, order, c, 2);
      FoldOne(g[2], Before(order, 2), c, 4);
      ExitCounts(g, x, order, c, 2);
    } else {
      ValueOf(g, order, c, x);
      FoldBacks(g[x], 0, Before(order, x), c, 4, 0);
    }
  }

  lemma {:induction false} SecondLate(g: Graph, order: seq<nat>)
    requires SecondLaid(g) && g[3] == [] && order == BlockOne(g).order
    ensures Distinct(order) && 4 in order && 2 in Before(order, 4) && 3 in Before(order, 4)
  {
    assert g[1][0] == 3 && g[1][1] == 4 && g[4][1] == 2 && g[4][2] == 3;
    var s1 := OpenOne(g);
    var s4 := Descend(g, s1, 1, order, 4, {3});
    Sees(g, s4, 4, order);
  }

  lemma {:induction false} SecondDropped(g: Graph)
    requires SecondLaid(g) && g[3] == []
    ensures Run(g).complexity[1] == 4
  {
    var order, c := TreeOfOne(g);
    RootSees(g, order);
    assert g[1][0] == 3 && g[1][1] == 4;
    SecondLate(g, order);
    LateThree(g, order, c);
    ValueOf(g, order, c, 1);
    FoldTwo(g[1], Before(order, 1), c, 3, 4);
  }

  lemma {:induction false} LateThree(g: Graph, order: seq<nat>, c: seq<nat>)
    requires Tree(g, order, c) && |g| > 4 && One(g[2], 4) && g[3] == [] && Three(g[4], 1, 2, 3)
    requires 4 in Before(order, 1) && 2 in Before(order, 4) && 3 in Before(order, 4)
    ensures c[3] == 1 && c[4] == 3
  {
    EarlierStill(order, 1, 4, 1);
    EarlierStill(order, 4, 2, 4);
    ValueOf(g, order, c, 2);
    FoldOne(g[2], Before(order, 2), c, 4);
    ValueOf(g, order, c, 3);
    ValueOf(g, order, c, 4);
    FoldThree(g[4], Before(order, 4), c, 1, 2, 3);
  }

  // ---------- from six blocks on

  /** The flow graph with those rows and the given row for the exit block. */
  function Family(n: nat, w: nat, r1: seq<nat>, r2: seq<nat>, r3: seq<nat>, rw: seq<nat>, row: seq<nat>): (g: Graph)
    ensures |g| == n && forall u :: 0 <= u < n ==> g[u] == FamilyRow(n, w, r1, r2, r3, rw, row, u)
  {
    seq(n, u requires 0 <= u < n => FamilyRow(n, w, r1, r2, r3, rw, row, u))
  }

  function FamilyRow(n: nat, w: nat, r1: seq<nat>, r2: seq<nat>, r3: seq<nat>, rw: seq<nat>, row: seq<nat>,
                     u: nat): seq<nat> {
    if u == 1 then r1 else if u == 2 then r2 else if u == 3 then r3 else if u == w then rw
    else if u + 1 == n then row else []
  }

  /** A row without block 0. */
  ghost predicate Inner(row: seq<nat>, n: nat) {
    Ascending(row) && Below(row, n) && 0 !in row
  }

  ghost predicate Inners(n: nat, w: nat, r1: seq<nat>, r2: seq<nat>, r3: seq<nat>, rw: seq<nat>) {
    3 <= w < n - 1 && (w == 3 ==> r3 == rw) && Inner(r1, n) && Inner(r2, n) && Inner(r3, n) && Inner(rw, n)
  }

  lemma {:induction false} FamilyFormed(n: nat, w: nat, r1: seq<nat>, r2: seq<nat>, r3: seq<nat>, rw: seq<nat>,
                                        row: seq<nat>)
    returns (g: Graph)
    requires Inners(n, w, r1, r2, r3, rw) && Ascending(row) && Below(row, n)
    ensures WellFormed(g) && |g| == n && g[n - 1] == row
    ensures g[0] == [] && g[1] == r1 && g[2] == r2 && g[3] == r3 && g[w] == rw
    ensures forall u :: 0 <= u < n - 1 ==> 0 !in g[u]
  {
    g := Family(n, w, r1, r2, r3, rw, row);
  }

  /** What the analyser makes of it with the exit kept. */
  lemma {:induction false} FamilyKept(n: nat, w: nat, r1: seq<nat>, r2: seq<nat>, r3: seq<nat>, rw: seq<nat>,
                                      row: seq<nat>)
    returns (g: Graph, k: Graph)
    requires Inners(n, w, r1, r2, r3, rw) && Ascending(row) && Below(row, n)
    ensures WellFormed(g) && |g| == n && g[n - 1] == row && KeepingExit(g) == k
    ensures WellFormed(k) && Isolated(k, 0) && |k| == n && k[n - 1] == Without(row, 0)
    ensures k[1] == r1 && k[2] == r2 && k[3] == r3 && k[w] == rw
  {
    g := FamilyFormed(n, w, r1, r2, r3, rw, row);
    k := KeepingExit(g);
    EntryIsolated(g);
    WithoutAbsent(r1, 0);
    WithoutAbsent(r2, 0);
    WithoutAbsent(r3, 0);
    WithoutAbsent(rw, 0);
  }

  /** With the exit cleared, a row without the exit stays, and one that leads nowhere else is empty. */
  lemma {:induction false} RowStays(k: Graph, x: nat, u: nat)
    requires WellFormed(k) && u < |k| && u != x && Below(k[u], x)
    ensures Cleared(k, x)[u] == k[u]
  {
    WithoutAbsent(k[u], x);
  }

  lemma {:induction false} RowEmpties(k: Graph, x: nat, u: nat)
    requires WellFormed(k) && u < |k| && One(k[u], x)
    ensures Cleared(k, x)[u] == []
  {
    assert k[u][..0] == [];
  }

  lemma {:induction false} StillFormed(k: Graph, x: nat)
    requires WellFormed(k) && Isolated(k, 0) && x < |k|
    ensures WellFormed(Cleared(k, x)) && Isolated(Cleared(k, x), 0) && |Cleared(k, x)| == |k|
  {
    ClearedWellFormed(k, x);
    ClearedIsolated(k, x);
  }

  /** Clearing x gives block 1 a greater value. */
  ghost predicate Loses(k: Graph, x: nat) {
    WellFormed(k) && |k| >= 2 && WellFormed(Cleared(k, x)) && NpathOf(k) < NpathOf(Cleared(k, x))
  }

  /** In this flow graph of n blocks, with that exit row, the commented-out assertion fails. */
  ghost predicate Breaks(g: Graph, n: nat, row: seq<nat>) {
    WellFormed(g) && |g| == n >= 2 && g[n - 1] == row && !DeltaHolds(g)
  }

  lemma {:induction false} BreaksBy(g: Graph, n: nat, row: seq<nat>)
    requires WellFormed(g) && |g| == n > 2 && g[n - 1] == row && Loses(KeepingExit(g), n - 1)
    ensures Breaks(g, n, row)
  {
  }

  /** Blocks 2 to n - 2 in the exit row. */
  ghost predicate Inside(n: nat, row: seq<nat>, w: nat) {
    Ascending(row) && Below(row, n) && w in row && 1 < w < n - 1
  }

  lemma {:induction false} LateCleared(k: Graph, w: nat, x: nat)
    requires x + 1 == |k| && LateLaid(k, w) && One(k[2], x)
    ensures LateLaid(Cleared(k, x), w) && Cleared(k, x)[2] == []
  {
    StillFormed(k, x);
    LateRows(k, w, x);
  }

  lemma {:induction false} LateRows(k: Graph, w: nat, x: nat)
    requires x + 1 == |k| && LateLaid(k, w) && One(k[2], x)
    ensures var d := Cleared(k, x); d[1] == k[1] && d[3] == k[3] && d[w] == k[w] && d[2] == []
  {
    RowStays(k, x, 1);
    RowStays(k, x, 3);
    RowStays(k, x, w);
    RowEmpties(k, x, 2);
  }

  lemma {:induction false} LateLoses(k: Graph, w: nat, x: nat)
    requires x + 1 == |k| && LateLaid(k, w) && One(k[2], x) && w in k[x]
    ensures Loses(k, x)
  {
    LateKept(k, w, x);
    LateCleared(k, w, x);
    LateDropped(Cleared(k, x), w);
  }

  lemma {:induction false} LatePlan(n: nat, x: nat, w: nat)
    returns (r1: seq<nat>, r2: seq<nat>, r3: seq<nat>, rw: seq<nat>)
    requires x + 1 == n && 4 <= w < x
    ensures Inners(n, w, r1, r2, r3, rw)
    ensures Two(r1, 3, w) && One(r2, x) && Two(r3, 2, 3) && Two(rw, 1, 2)
  {
    r1, r2, r3, rw := [3, w], [x], [2, 3], [1, 2];
  }

  lemma {:induction false} LateMade(n: nat, x: nat, row: seq<nat>, w: nat) returns (g: Graph, k: Graph)
    requires x + 1 == n && 4 <= w < x && Ascending(row) && Below(row, n)
    ensures WellFormed(g) && |g| == n && g[x] == row && KeepingExit(g) == k
    ensures |k| == n && LateLaid(k, w) && One(k[2], x) && k[x] == Without(row, 0)
  {
    var r1, r2, r3, rw := LatePlan(n, x, w);
    g, k := FamilyKept(n, w, r1, r2, r3, rw, row);
    LateByRows(k, w, x);
  }

  lemma {:induction false} LateByRows(k: Graph, w: nat, x: nat)
    requires WellFormed(k) && Isolated(k, 0) && x + 1 == |k| && 4 <= w < x
    requires Two(k[1], 3, w) && One(k[2], x) && Two(k[3], 2, 3) && Two(k[w], 1, 2)
    ensures LateLaid(k, w) && One(k[2], x)
  {
  }

  lemma {:induction false} LateAnalysed(n: nat, x: nat, row: seq<nat>, w: nat) returns (g: Graph)
    requires n >= 6 && x + 1 == n && Inside(n, row, w) && w >= 4
    ensures WellFormed(g) && |g| == n && g[x] == row && Loses(KeepingExit(g), x)
  {
    var k: Graph;
    g, k := LateMade(n, x, row, w);
    LateLoses(k, w, x);
  }

  lemma {:induction false} ThirdCleared(k: Graph, x: nat)
    requires x + 1 == |k| && ThirdLaid(k) && One(k[4], x)
    ensures ThirdLaid(Cleared(k, x)) && Cleared(k, x)[4] == []
  {
    StillFormed(k, x);
    ThirdRows(k, x);
  }

  lemma {:induction false} ThirdRows(k: Graph, x: nat)
    requires x + 1 == |k| && ThirdLaid(k) && One(k[4], x)
    ensures var d := Cleared(k, x); d[1] == k[1] && d[2] == k[2] && d[3] == k[3] && d[4] == []
  {
    RowStays(k, x, 1);
    RowStays(k, x, 2);
    RowStays(k, x, 3);
    RowEmpties(k, x, 4);
  }

  lemma {:induction false} ThirdLoses(k: Graph, x: nat)
    requires x + 1 == |k| && ThirdLaid(k) && One(k[4], x) && ExitTo(k[x], 3, x)
    ensures Loses(k, x)
  {
    ThirdKept(k, x);
    ThirdCleared(k, x);
    ThirdDropped(Cleared(k, x));
  }

  lemma {:induction false} ThirdMade(n: nat, x: nat, row: seq<nat>) returns (g: Graph)
    requires n >= 6 && x + 1 == n && Inside(n, row, 3) && forall y :: 3 < y < x ==> y !in row
    ensures WellFormed(g) && |g| == n && g[x] == row
    ensures ThirdLaid(KeepingExit(g)) && One(KeepingExit(g)[4], x) && ExitTo(KeepingExit(g)[x], 3, x)
  {
    var k: Graph;
    g, k := FamilyKept(n, 4, [2, 3], [1, 4], [1, 2], [x], row);
    RowBelow(row, n);
  }

  lemma {:induction false} ThirdAnalysed(n: nat, x: nat, row: seq<nat>) returns (g: Graph)
    requires n >= 6 && x + 1 == n && Inside(n, row, 3) && forall y :: 3 < y < x ==> y !in row
    ensures WellFormed(g) && |g| == n && g[x] == row && Loses(KeepingExit(g), x)
  {
    g := ThirdMade(n, x, row);
    ThirdLoses(KeepingExit(g), x);
  }

  lemma {:induction false} SecondCleared(k: Graph, x: nat)
    requires x + 1 == |k| && SecondLaid(k) && One(k[3], x)
    ensures SecondLaid(Cleared(k, x)) && Cleared(k, x)[3] == []
  {
    StillFormed(k, x);
    SecondRows(k, x);
  }

  lemma {:induction false} SecondRows(k: Graph, x: nat)
    requires x + 1 == |k| && SecondLaid(k) && One(k[3], x)
    ensures var d := Cleared(k, x); d[1] == k[1] && d[2] == k[2] && d[4] == k[4] && d[3] == []
  {
    RowStays(k, x, 1);
    RowStays(k, x, 2);
    RowStays(k, x, 4);
    RowEmpties(k, x, 3);
  }

  lemma {:induction false} SecondLoses(k: Graph, x: nat)
    requires x + 1 == |k| && SecondLaid(k) && One(k[3], x) && ExitTo(k[x], 2, x)
    ensures Loses(k, x)
  {
    SecondKept(k, x);
    SecondCleared(k, x);
    SecondDropped(Cleared(k, x));
  }

  lemma {:induction false} SecondMade(n: nat, x: nat, row: seq<nat>) returns (g: Graph)
    requires n >= 6 && x + 1 == n && Inside(n, row, 2) && forall y :: 2 < y < x ==> y !in row
    ensures WellFormed(g) && |g| == n && g[x] == row
    ensures SecondLaid(KeepingExit(g)) && One(KeepingExit(g)[3], x) && ExitTo(KeepingExit(g)[x], 2, x)
  {
    var k: Graph;
    g, k := FamilyKept(n, 4, [3, 4], [4], [x], [1, 2, 3], row);
    RowBelow(row, n);
  }

  lemma {:induction false} SecondAnalysed(n: nat, x: nat, row: seq<nat>) returns (g: Graph)
    requires n >= 6 && x + 1 == n && Inside(n, row, 2) && forall y :: 2 < y < x ==> y !in row
    ensures WellFormed(g) && |g| == n && g[x] == row && Loses(KeepingExit(g), x)
  {
    g := SecondMade(n, x, row);
    SecondLoses(KeepingExit(g), x);
  }

  lemma RowBelow(row: seq<nat>, n: nat)
    requires Ascending(row) && Below(row, n)
    ensures Below(Without(row, 0), n) && 0 !in Without(row, 0)
  {
    var t := Without(row, 0);
    assert forall i :: 0 <= i < |t| ==> t[i] in t && t[i] in row;
  }

  lemma {:induction false} RowLoses(n: nat, row: seq<nat>, w: nat) returns (g: Graph)
    requires n >= 6 && Inside(n, row, w)
    ensures WellFormed(g) && |g| == n && g[n - 1] == row && Loses(KeepingExit(g), n - 1)
  {
    if y :| y in row && 4 <= y < n - 1 {
      g := LateAnalysed(n, n - 1, row, y);
    } else if 3 in row {
      g := ThirdAnalysed(n, n - 1, row);
    } else {
      g := SecondAnalysed(n, n - 1, row);
    }
  }

  /** Every row that leads elsewhere breaks the assertion in some flow graph of that size. */
  lemma {:induction false} RowBreaks(n: nat, row: seq<nat>, w: nat) returns (g: Graph)
    requires n >= 6 && Inside(n, row, w)
    ensures Breaks(g, n, row)
  {
    g := RowLoses(n, row, w);
    BreaksBy(g, n, row);
  }

  // ---------- five blocks

  /** Block 1 branches to 2 and 3, and 3 leads back to 1 and to 2. */
  ghost predicate FiveLaid(g: Graph) {
    WellFormed(g) && Isolated(g, 0) && |g| == 5 && Two(g[1], 2, 3) && Two(g[3], 1, 2)
  }

  lemma {:induction false} FiveFirst(g: Graph, order: seq<nat>)
    requires FiveLaid(g) && One(g[2], 4) && 3 in g[4] && order == BlockOne(g).order
    ensures Distinct(order) && 4 in order && forall y :: 1 <= y < 5 && y != 3 ==> y !in Before(order, 4)
    ensures 3 in order && 1 !in Before(order, 3) && 2 !in Before(order, 3)
  {
    assert g[1][0] == 2 && g[2][0] == 4;
    var s1 := OpenOne(g);
    var s2 := Descend(g, s1, 1, order, 2, {});
    var s4 := Descend(g, s2, 2, order, 4, {});
    Sees(g, s4, 4, order);
    EarlierStill(order, 4, 3, 1);
    EarlierStill(order, 4, 3, 2);
  }

  lemma {:induction false} FiveExit(g: Graph, order: seq<nat>, c: seq<nat>)
    requires Tree(g, order, c) && |g| == 5 && !Harmless(g[4]) && c[3] == 1 && 4 in order
    requires forall y :: 1 <= y < 5 && y != 3 ==> y !in Before(order, 4)
    ensures c[4] == 1
  {
    ValueUpto(g, order, c, 4);
    UptoFour(g[4], Before(order, 4), c);
    UptoFive(g[4], Before(order, 4), c);
  }

  lemma {:induction false} FiveKeptTwo(g: Graph)
    requires FiveLaid(g) && One(g[2], 4) && !Harmless(g[4])
    ensures Run(g).complexity[1] <= 2
  {
    var order, c := TreeOfOne(g);
    FiveFirst(g, order);
    ValueOf(g, order, c, 3);
    FoldTwo(g[3], Before(order, 3), c, 1, 2);
    FiveExit(g, order, c);
    ValueOf(g, order, c, 1);
    FoldTwo(g[1], Before(order, 1), c, 2, 3);
    if 2 in Before(order, 1) {
      ValueOf(g, order, c, 2);
      FoldOne(g[2], Before(order, 2), c, 4);
    }
  }

  lemma {:induction false} FiveDroppedThree(g: Graph)
    requires FiveLaid(g) && g[2] == []
    ensures Run(g).complexity[1] == 3
  {
    var order, c := TreeOfOne(g);
    RootSees(g, order);
    assert g[1][0] == 2 && g[1][1] == 3;
    assert 2 in g[1] && 3 in g[1];
    LateCounts(g, order, c, 3);
    ValueOf(g, order, c, 2);
    ValueOf(g, order, c, 1);
    FoldTwo(g[1], Before(order, 1), c, 2, 3);
  }

  lemma {:induction false} FiveRows(k: Graph)
    requires FiveLaid(k) && One(k[2], 4)
    ensures var d := Cleared(k, 4); d[1] == k[1] && d[2] == [] && d[3] == k[3]
  {
    RowStays(k, 4, 1);
    RowStays(k, 4, 3);
    RowEmpties(k, 4, 2);
  }

  lemma {:induction false} FiveLoses(k: Graph)
    requires FiveLaid(k) && One(k[2], 4) && !Harmless(k[4])
    ensures Loses(k, 4)
  {
    FiveKeptTwo(k);
    StillFormed(k, 4);
    FiveRows(k);
    FiveDroppedThree(Cleared(k, 4));
  }

  lemma {:induction false} FiveMade(row: seq<nat>) returns (g: Graph)
    requires Ascending(row) && Below(row, 5)
    ensures WellFormed(g) && |g| == 5 && g[4] == row
    ensures FiveLaid(KeepingExit(g)) && One(KeepingExit(g)[2], 4) && KeepingExit(g)[4] == Without(row, 0)
  {
    var k: Graph;
    g, k := FamilyKept(5, 3, [2, 3], [4], [1, 2], [1, 2], row);
  }

  lemma {:induction false} FiveAnalysed(n: nat, row: seq<nat>) returns (g: Graph)
    requires n == 5 && Ascending(row) && Below(row, n) && !Harmless(row)
    ensures WellFormed(g) && |g| == n && g[n - 1] == row && Loses(KeepingExit(g), n - 1)
  {
    g := FiveMade(row);
    FiveLoses(KeepingExit(g));
  }

  lemma {:induction false} FiveBreaks(n: nat, row: seq<nat>) returns (g: Graph)
    requires n == 5 && Ascending(row) && Below(row, n) && !Harmless(row)
    ensures Breaks(g, n, row)
  {
    g := FiveAnalysed(n, row);
    BreaksBy(g, n, row);
  }

  // ---------- the exact boundary

  ghost predicate Homeward(row: seq<nat>, n: nat) {
    forall v :: v in row ==> v == 0 || v == 1 || v + 1 == n
  }

  /** A row that leads only to block 0, block 1 and the exit block itself meets it in every flow graph. */
  lemma {:induction false} HomewardHolds(g: Graph)
    requires WellFormed(g) && |g| >= 2 && Homeward(g[|g| - 1], |g|)
    ensures DeltaHolds(g)
  {
    var k := KeepingExit(g);
    assert k[|g| - 1] == if |g| - 1 == 0 then [] else Without(g[|g| - 1], 0);
    assert LeadsOnlyTo(k[|g| - 1], 1, |g| - 1);
    DeltasNonNegative(FunctionData([], [], 0), g);
  }

  /** The exit rows with which nothing can go wrong: any row up to four blocks; with five, a row that does
      not lead to block 3, or leads there and to block 1 or 2 but not to the exit; and from six blocks on,
      a row that leads only to block 0, block 1 and the exit block itself. */
  ghost predicate Meets(n: nat, row: seq<nat>) {
    n <= 4 || (if n == 5 then Harmless(row) else Homeward(row, n))
  }

  lemma {:induction false} MeetsHolds(n: nat, row: seq<nat>, g: Graph)
    requires n >= 2 && Meets(n, row) && WellFormed(g) && |g| == n && g[n - 1] == row
    ensures DeltaHolds(g)
  {
    if n == 4 {
      FourHold(g);
    } else if n == 5 {
      FiveHold(g);
    } else {
      HomewardHolds(g);
    }
  }

  lemma {:induction false} OthersBreak(n: nat, row: seq<nat>) returns (g: Graph)
    requires !Meets(n, row) && Ascending(row) && Below(row, n)
    ensures Breaks(g, n, row)
  {
    if n == 5 {
      g := FiveBreaks(n, row);
    } else {
      var w :| w in row && !(w == 0 || w == 1 || w + 1 == n);
      g := RowBreaks(n, row, w);
    }
  }

  ghost predicate AlwaysHolds(n: nat, row: seq<nat>)
    requires n >= 2
  {
    forall g: Flow :: |g| == n && g[n - 1] == row ==> DeltaHolds(g)
  }

  /** For every number of blocks, the exit row alone decides whether the commented-out assertion holds of
      every flow graph of that size. */
  lemma {:induction false} DeltaBoundaryExact(n: nat, row: seq<nat>)
    requires n >= 2 && Ascending(row) && Below(row, n)
    ensures AlwaysHolds(n, row) <==> Meets(n, row)
  {
    if Meets(n, row) {
      forall g: Flow | |g| == n && g[n - 1] == row
        ensures DeltaHolds(g)
      {
        MeetsHolds(n, row, g);
      }
    } else {
      var g: Flow := OthersBreak(n, row);
      assert |g| == n && g[n - 1] == row && !DeltaHolds(g);
    }
  }
}
