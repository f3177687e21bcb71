/** How large the reported entry gets on graphs with loops. */
module CyclicBound {
  import opened Graphs
  import opened Sums
  import opened DepthFirst
  import opened SearchTheory
  import opened CyclicNpath
  import opened AcyclicNpath
  import opened EntryTree

  // ---------- the bound

  lemma {:induction false} ForwardInside(vs: seq<nat>, done: seq<nat>)
    requires Ascending(vs)
    ensures Distinct(Forward(vs, done)) && forall x :: x in Forward(vs, done) ==> x in vs && x in done
  {
    if vs != [] {
      var front := vs[..|vs| - 1];
      ForwardInside(front, done);
      assert vs == front + [vs[|vs| - 1]];
      assert vs[|vs| - 1] !in front;
    }
  }

  /** Whatever resets it, the accumulator stays within 1 and the values of the finished successors. */
  lemma {:induction false} FoldBelow(vs: seq<nat>, i: nat, done: seq<nat>, c: seq<nat>, acc: nat)
    requires i <= |vs| && Below(vs, |c|) && Below(Forward(vs[..i], done), |c|) && Ascending(vs)
    requires acc <= 1 + SumAt(c, Forward(vs[..i], done))
    ensures Below(Forward(vs, done), |c|) && Fold(vs, i, done, c, acc) <= 1 + SumAt(c, Forward(vs, done))
    decreases |vs| - i
  {
    if i < |vs| {
      ForwardGrows(vs, i, done, c);
      FoldBelow(vs, i + 1, done, c, if vs[i] in done then acc + c[vs[i]] else 1);
    } else {
      assert vs[..i] == vs;
    }
  }

  lemma {:induction false} ForwardGrows(vs: seq<nat>, i: nat, done: seq<nat>, c: seq<nat>)
    requires i < |vs| && Below(vs, |c|) && Below(Forward(vs[..i], done), |c|)
    ensures var front, more := Forward(vs[..i], done), Forward(vs[..i + 1], done);
      Below(more, |c|) && SumAt(c, more) == SumAt(c, front) + if vs[i] in done then c[vs[i]] else 0
  {
    var front, more := Forward(vs[..i], done), Forward(vs[..i + 1], done);
    assert vs[..i + 1][..i] == vs[..i] && vs[..i + 1][i] == vs[i];
    if vs[i] in done {
      assert more == front + [vs[i]] && more[..|front|] == front;
    } else {
      assert more == front + [] == front;
    }
  }

  lemma {:induction false} ValueBelow(g: Graph, order: seq<nat>, c: seq<nat>, k: nat)
    requires Tree(g, order, c) && 1 <= k < |order| && order[0] == 0
    ensures Below(order[1..k], |c|) && c[order[k]] <= 1 + SumAt(c, order[1..k])
  {
    var vs, done := g[order[k]], order[..k];
    assert Equation(g, order, c, k);
    assert Forward(vs[..0], done) == [];
    FoldBelow(vs, 0, done, c, 0);
    ForwardInside(vs, done);
    forall x | x in Forward(vs, done)
      ensures x in order[1..k]
    {
      var j :| 0 <= j < k && order[j] == x;
      assert x in vs && j > 0;
      assert order[1..k][j - 1] == x;
    }
    SumContained(c, Forward(vs, done), order[1..k]);
  }

  lemma {:induction false} TreeBound(g: Graph, order: seq<nat>, c: seq<nat>, k: nat)
    requires Tree(g, order, c) && 1 <= k < |order| && order[0] == 0
    ensures c[order[k]] <= Pow2(k - 1)
    ensures Below(order[1..k + 1], |c|) && SumAt(c, order[1..k + 1]) < Pow2(k)
  {
    ValueBelow(g, order, c, k);
    assert order[1..k + 1][..k - 1] == order[1..k];
    if k > 1 {
      TreeBound(g, order, c, k - 1);
    }
  }

  /** On every graph of n blocks whose entry block has been cleared, the reported entry is at most
      2^(n-2), or twice that when block 1 loops to itself. */
  lemma {:induction false} ReportedBound(g: Graph)
    requires WellFormed(g) && |g| >= 2 && Isolated(g, 0)
    ensures Run(g).complexity[1] <= (if 1 in g[1] then 2 else 1) * Pow2(|g| - 2)
  {
    ReportedValue(g);
    var order, c := TreeOfOne(g);
    var k := |order| - 1;
    TreeBound(g, order, c, k);
    DistinctLength(order, |g|);
    Pow2Monotone(k - 1, |g| - 2);
  }

  /** CountType is a 64-bit signed integer: up to 63 blocks the reported entry fits, with or without loops. */
  lemma {:induction false} ReportedFitsUpTo63(g: Graph)
    requires WellFormed(g) && 2 <= |g| <= 63 && Isolated(g, 0)
    ensures Run(g).complexity[1] < 0x8000_0000_0000_0000
  {
    ReportedBound(g);
    Pow2Monotone(|g| - 2, 61);
    Pow2At62();
  }

  // ---------- the bound is attained

  /** Every block but the entry leads to every block but the entry. */
  function Full(n: nat): (g: Graph)
    ensures |g| == n && forall u :: 0 <= u < n ==> g[u] == if u == 0 then [] else Inner(n)
  {
    seq(n, u => if u == 0 then [] else Inner(n))
  }

  function Inner(n: nat): (row: seq<nat>)
    ensures |row| == (if n == 0 then 0 else n - 1) && forall i :: 0 <= i < |row| ==> row[i] == i + 1
  {
    seq(if n == 0 then 0 else n - 1, i => i + 1)
  }

  lemma {:induction false} FullFormed(n: nat)
    ensures WellFormed(Full(n)) && (n > 0 ==> Isolated(Full(n), 0))
    ensures forall u, v :: 1 <= u < n && 1 <= v < n ==> v in Full(n)[u]
  {
    forall u, v | 1 <= u < n && 1 <= v < n
      ensures v in Full(n)[u]
    {
      assert Full(n)[u][v - 1] == v;
    }
  }

  /** The search goes straight down: when block u is opened, exactly the blocks 1 to u are grey. */
  lemma {:induction false} FullOpens(g: Graph, u: nat, order: seq<nat>) returns (s: Search)
    requires WellFormed(g) && g == Full(|g|) && 1 <= u < |g| && Isolated(g, 0) && order == BlockOne(g).order
    requires forall u, v :: 1 <= u < |g| && 1 <= v < |g| ==> v in g[u]
    ensures Opens(g, s, u, 0, order)
    ensures forall y :: 0 <= y < |g| ==> (s.color[y].Grey? <==> 1 <= y <= u) && (s.color[y].White? <==> y > u)
  {
    if u == 1 {
      s := OpenOne(g);
    } else {
      var t := FullOpens(g, u - 1, order);
      s := Descend(g, t, u - 1, order, u, {});
    }
  }

  lemma {:induction false} FullSees(g: Graph, u: nat, order: seq<nat>)
    requires WellFormed(g) && g == Full(|g|) && 1 <= u < |g| && Isolated(g, 0) && order == BlockOne(g).order
    requires forall u, v :: 1 <= u < |g| && 1 <= v < |g| ==> v in g[u]
    ensures Distinct(order) && u in order
    ensures forall y :: 1 <= y < |g| ==> (y in Before(order, u) <==> y > u)
  {
    var s := FullOpens(g, u, order);
    Sees(g, s, u, order);
  }

  lemma {:induction false} FullBacks(row: seq<nat>, u: nat, i: nat, done: seq<nat>, c: seq<nat>, acc: nat)
    requires Below(row, |c|) && i < u <= |row| && forall j :: 0 <= j < u ==> row[j] !in done
    ensures Fold(row, i, done, c, acc) == Fold(row, u, done, c, 1)
    decreases u - i
  {
    if i + 1 < u {
      FullBacks(row, u, i + 1, done, c, 1);
    }
  }

  lemma {:induction false} FullSum(row: seq<nat>, i: nat, done: seq<nat>, c: seq<nat>, acc: nat)
    requires Below(row, |c|) && i <= |row|
    requires forall j :: i <= j < |row| ==> row[j] in done && c[row[j]] == Pow2(|row| - 1 - j)
    ensures Fold(row, i, done, c, acc) == acc + Pow2(|row| - i) - 1
    decreases |row| - i
  {
    if i < |row| {
      FullSum(row, i + 1, done, c, acc + c[row[i]]);
    }
  }

  ghost predicate FullTree(g: Graph, order: seq<nat>, c: seq<nat>) {
    && Tree(g, order, c) && g == Full(|g|) && order == BlockOne(g).order
    && forall u, v :: 1 <= u < |g| && 1 <= v < |g| ==> v in g[u]
  }

  lemma {:induction false} FullFold(n: nat, u: nat, done: seq<nat>, c: seq<nat>)
    requires |c| == n && 1 <= u < n && forall v :: u < v < n ==> c[v] == Pow2(n - 1 - v)
    requires forall y :: 1 <= y < n ==> (y in done <==> y > u)
    ensures Below(Inner(n), n) && Fold(Inner(n), 0, done, c, 0) == Pow2(n - 1 - u)
  {
    var row := Inner(n);
    FullBacks(row, u, 0, done, c, 0);
    FullSum(row, u, done, c, 1);
  }

  lemma {:induction false} FullRow(g: Graph, order: seq<nat>, c: seq<nat>, u: nat)
    requires FullTree(g, order, c) && 1 <= u < |g|
    requires forall v :: u < v < |g| ==> c[v] == Pow2(|g| - 1 - v)
    ensures c[u] == Pow2(|g| - 1 - u)
  {
    var row, n := g[u], |g|;
    assert row == Inner(n) by {
      assert g == Full(n);
    }
    FullSees(g, u, order);
    var done := Before(order, u);
    FullFold(n, u, done, c);
    assert c[u] == AtLeastOne(Fold(row, 0, done, c, 0)) by {
      ValueOf(g, order, c, u);
    }
  }

  lemma {:induction false} FullValue(g: Graph, order: seq<nat>, c: seq<nat>, u: nat)
    requires FullTree(g, order, c) && 1 <= u < |g|
    ensures forall v :: u <= v < |g| ==> c[v] == Pow2(|g| - 1 - v)
    decreases |g| - u
  {
    if u + 1 < |g| {
      FullValue(g, order, c, u + 1);
    }
    FullRow(g, order, c, u);
  }

  /** The bound is attained for every n: with 64 blocks that is 2^63, which a CountType cannot hold. */
  lemma {:induction false} ReportedBoundAttained(n: nat)
    requires n >= 2
    ensures WellFormed(Full(n)) && Isolated(Full(n), 0) && 1 in Full(n)[1]
    ensures Run(Full(n)).complexity[1] == 2 * Pow2(n - 2)
  {
    FullFormed(n);
    var order, c := TreeOfOne(Full(n));
    FullValue(Full(n), order, c, 1);
  }
}
