/** The analyser: it searches each function's flow graph twice, once without the entry block's edges
    and once without those of the exit block as well, and records both pairs of measures. */
module Analysis {
  import opened Graphs
  import opened DepthFirst
  import opened NpathCounting

  /** A flow graph that is edited in place. */
  class FlowGraph {
    var adj: Flow

    constructor ()
      ensures adj == []
    {
      adj := [];
    }

    constructor Copy(g: FlowGraph)
      ensures adj == g.adj
    {
      adj := g.adj;
    }

    /** Exactly the edge u -> v is added, and the blocks up to its ends. */
    method AddEdge(u: nat, v: nat)
      modifies this
      ensures adj == WithEdge(old(adj), u, v)
      ensures |adj| == Max(|old(adj)|, Max(u, v) + 1)
      ensures forall x: nat, y: nat :: HasEdge(adj, x, y) <==> HasEdge(old(adj), x, y) || (x == u && y == v)
    {
      WithEdgeExact(adj, u, v);
      adj := WithEdge(adj, u, v);
    }

    /** Exactly the edges into and out of v are gone; every block stays. */
    method ClearVertex(v: nat)
      requires v < |adj|
      modifies this
      ensures adj == Cleared(old(adj), v) && |adj| == |old(adj)|
      ensures forall x: nat, y: nat :: HasEdge(adj, x, y) <==> HasEdge(old(adj), x, y) && x != v && y != v
    {
      ClearedWellFormed(adj, v);
      forall x: nat, y: nat
        ensures HasEdge(Cleared(adj, v), x, y) <==> HasEdge(adj, x, y) && x != v && y != v
      {
        ClearedEdges(adj, v, x, y);
      }
      adj := Cleared(adj, v);
    }

    /** No blocks and no edges. */
    method Clear()
      modifies this
      ensures adj == [] && forall x: nat, y: nat :: !HasEdge(adj, x, y)
    {
      adj := [];
    }
  }

  datatype FunctionData = FunctionData(name: seq<bv8>, filename: seq<bv8>, line: int)

  /** What one call of process records about a function; `e` marks the measures with exceptions. */
  datatype Measures = Measures(
    function_: FunctionData, cyclomatic: int, npath: int, cyclomaticE: int, npathE: int)

  class DataModel {
    var function_: FunctionData
    var cyclomatic: int
    var npath: int
    var cyclomaticE: int
    var npathE: int

    constructor (f: FunctionData)
      ensures Value() == Measures(f, 0, 0, 0, 0)
    {
      function_ := f;
      cyclomatic, npath, cyclomaticE, npathE := 0, 0, 0, 0;
    }

    function Value(): Measures
      reads this
    {
      Measures(function_, cyclomatic, npath, cyclomaticE, npathE)
    }
  }

  // ---------- what the two searches see

  function KeepingExit(g: Graph): (h: Graph)
    requires WellFormed(g)
    ensures WellFormed(h) && |h| == |g|
  {
    ClearedWellFormed(g, 0);
    Cleared(g, 0)
  }

  function DroppingExit(g: Graph): (h: Graph)
    requires WellFormed(g)
    ensures WellFormed(h) && |h| == |g|
  {
    var k := KeepingExit(g);
    if |g| > 2 then
      ClearedWellFormed(k, |g| - 1);
      Cleared(k, |g| - 1)
    else k
  }

  function CyclomaticOf(g: Graph): int {
    NumEdges(g) - |g| + 2
  }

  function NpathOf(g: Graph): nat
    requires WellFormed(g) && |g| >= 2
  {
    Run(g).complexity[1]
  }

  /** The measures of a non-empty flow graph; block 1 must exist. */
  function Measured(f: FunctionData, g: Graph): Measures
    requires WellFormed(g) && |g| >= 2
  {
    Measures(f,
      CyclomaticOf(DroppingExit(g)), NpathOf(DroppingExit(g)),
      CyclomaticOf(KeepingExit(g)), NpathOf(KeepingExit(g)))
  }

  lemma MeasuredParts(m: Measures, g: Graph)
    requires WellFormed(g) && |g| >= 2
    requires m.npath == NpathOf(DroppingExit(g)) && m.cyclomatic == CyclomaticOf(DroppingExit(g))
    requires m.npathE == NpathOf(KeepingExit(g)) && m.cyclomaticE == CyclomaticOf(KeepingExit(g))
    ensures m == Measured(m.function_, g)
  {
  }

  // ---------- the ordered set of functions

  /** The order of source files, by their bytes. */
  predicate FileLess(a: seq<bv8>, b: seq<bv8>) {
    b != [] && (a == [] || a[0] < b[0] || (a[0] == b[0] && FileLess(a[1..], b[1..])))
  }

  /** operator< on what is recorded: by NPATH, then by source file, then by line. */
  predicate Less(a: Measures, b: Measures) {
    if a.npath < b.npath then true
    else if a.npath > b.npath then false
    else if FileLess(a.function_.filename, b.function_.filename) then true
    else if FileLess(b.function_.filename, a.function_.filename) then false
    else a.function_.line < b.function_.line
  }

  predicate Alike(a: Measures, b: Measures) {
    a.npath == b.npath && a.function_.filename == b.function_.filename && a.function_.line == b.function_.line
  }

  lemma {:induction false} FilesCompare(a: seq<bv8>, b: seq<bv8>)
    ensures !FileLess(a, b) && !FileLess(b, a) <==> a == b
    ensures !(FileLess(a, b) && FileLess(b, a))
    decreases |a|
  {
    if a != [] && b != [] && a[0] == b[0] {
      FilesCompare(a[1..], b[1..]);
      assert a == [a[0]] + a[1..] && b == [b[0]] + b[1..];
    }
  }

  /** The names agree up to some byte, and there the first one ends or has the smaller byte. */
  lemma {:induction false} FileLessExact(a: seq<bv8>, b: seq<bv8>)
    ensures FileLess(a, b) <==>
      exists k :: 0 <= k <= |a| && k < |b| && a[..k] == b[..k] && (k == |a| || a[k] < b[k])
    decreases |a|
  {
    forall k | 0 < k <= |a| && k < |b| && a[..k] == b[..k]
      ensures a[0] == b[0]
    {
      assert a[..k][0] == b[..k][0];
    }
    if a != [] && b != [] && a[0] == b[0] {
      FileLessExact(a[1..], b[1..]);
      if k :| 0 <= k < |a| && k < |b| - 1 && a[1..][..k] == b[1..][..k] && (k == |a| - 1 || a[1..][k] < b[1..][k]) {
        assert a[..k + 1] == [a[0]] + a[1..][..k] && b[..k + 1] == [b[0]] + b[1..][..k];
      }
      if k :| 0 <= k <= |a| && k < |b| && a[..k] == b[..k] && (k == |a| || a[k] < b[k]) {
        assert k > 0;
        assert a[1..][..k - 1] == a[..k][1..] && b[1..][..k - 1] == b[..k][1..];
      }
    } else if b != [] {
      assert a[..0] == b[..0];
    }
  }

  lemma {:induction false} FilesTransitive(a: seq<bv8>, b: seq<bv8>, c: seq<bv8>)
    requires FileLess(a, b) && FileLess(b, c)
    ensures FileLess(a, c)
    decreases |a|
  {
    if a != [] && a[0] == b[0] && b[0] == c[0] {
      FilesTransitive(a[1..], b[1..], c[1..]);
    }
  }

  /** Neither is less than the other exactly when NPATH, source file and line are the same; they never
      are less than each other. */
  lemma LessCompares(a: Measures, b: Measures)
    ensures !Less(a, b) && !Less(b, a) <==> Alike(a, b)
    ensures !(Less(a, b) && Less(b, a))
  {
    FilesCompare(a.function_.filename, b.function_.filename);
  }

  /** The smaller one has fewer paths, or as many and the smaller source file, or both and the smaller line. */
  lemma LessExact(a: Measures, b: Measures)
    ensures var x, y := a.function_, b.function_;
      Less(a, b) <==>
        || a.npath < b.npath
        || (a.npath == b.npath && FileLess(x.filename, y.filename))
        || (a.npath == b.npath && x.filename == y.filename && x.line < y.line)
  {
    FilesCompare(a.function_.filename, b.function_.filename);
  }

  lemma LessTransitive(a: Measures, b: Measures, c: Measures)
    requires Less(a, b) && Less(b, c)
    ensures Less(a, c)
  {
    var x, y, z := a.function_.filename, b.function_.filename, c.function_.filename;
    FilesCompare(x, y);
    FilesCompare(y, z);
    FilesCompare(x, z);
    if FileLess(x, y) && FileLess(y, z) {
      FilesTransitive(x, y, z);
    }
  }

  /** In strictly ascending order. */
  ghost predicate Sorted(fs: seq<Measures>) {
    forall i, j :: 0 <= i < j < |fs| ==> Less(fs[i], fs[j])
  }

  /** Insertion into an ordered set: an equivalent element stays. */
  function Inserted(fs: seq<Measures>, m: Measures): seq<Measures> {
    if fs == [] then [m]
    else if Less(m, fs[0]) then [m] + fs
    else if Less(fs[0], m) then [fs[0]] + Inserted(fs[1..], m)
    else fs
  }

  /** What the set holds afterwards: what it held, and the new element unless one with the same NPATH,
      source file and line was there. */
  lemma {:induction false} InsertedExact(fs: seq<Measures>, m: Measures)
    requires Sorted(fs)
    ensures forall x :: x in Inserted(fs, m) <==> x in fs || (x == m && forall y :: y in fs ==> !Alike(y, m))
    ensures Sorted(Inserted(fs, m))
    decreases |fs|
  {
    if fs != [] {
      var rest := fs[1..];
      InsertedExact(rest, m);
      LessCompares(fs[0], m);
      assert fs == [fs[0]] + rest;
      if Less(m, fs[0]) {
        InsertedFirst(fs, m);
      } else if Less(fs[0], m) {
        InsertedLater(fs[0], rest, m);
      }
    }
  }

  lemma {:induction false} InsertedFirst(fs: seq<Measures>, m: Measures)
    requires Sorted(fs) && fs != [] && Less(m, fs[0])
    ensures Sorted([m] + fs) && forall y :: y in fs ==> !Alike(y, m)
  {
    forall j | 0 <= j < |fs|
      ensures Less(m, fs[j]) && !Alike(fs[j], m)
    {
      if j > 0 {
        LessTransitive(m, fs[0], fs[j]);
      }
      LessCompares(m, fs[j]);
    }
  }

  lemma {:induction false} InsertedLater(first: Measures, rest: seq<Measures>, m: Measures)
    requires Sorted([first] + rest) && Less(first, m) && Sorted(Inserted(rest, m))
    requires forall x :: x in Inserted(rest, m) ==> x in rest || x == m
    ensures Sorted([first] + Inserted(rest, m))
  {
    var fs, all := [first] + rest, Inserted(rest, m);
    forall x | x in all
      ensures Less(first, x)
    {
      if x in rest {
        var j :| 0 <= j < |rest| && rest[j] == x;
        assert fs[0] == first && fs[j + 1] == x;
      }
    }
  }

  /** The set after inserting those measures one after the other. */
  function AllInserted(ms: seq<Measures>): seq<Measures> {
    if ms == [] then [] else Inserted(AllInserted(ms[..|ms| - 1]), ms[|ms| - 1])
  }

  /** No earlier measures have the same NPATH, source file and line as the i-th. */
  ghost predicate FirstOfItsKind(ms: seq<Measures>, i: nat) {
    i < |ms| && forall j :: 0 <= j < i ==> !Alike(ms[j], ms[i])
  }

  lemma {:induction false} FirstExists(ms: seq<Measures>, j: nat, m: Measures) returns (i: nat)
    requires j < |ms| && Alike(ms[j], m)
    ensures i <= j && FirstOfItsKind(ms, i) && Alike(ms[i], m)
  {
    if h :| 0 <= h < j && Alike(ms[h], ms[j]) {
      i := FirstExists(ms, h, m);
    } else {
      i := j;
    }
  }

  /** Those of the first n are the same with more behind them. */
  lemma {:induction false} FirstInFront(ms: seq<Measures>, n: nat, m: Measures)
    requires n < |ms|
    ensures (exists i: nat :: FirstOfItsKind(ms, i) && ms[i] == m) <==>
      (exists i: nat :: FirstOfItsKind(ms[..n], i) && ms[..n][i] == m) ||
      (exists i: nat :: i >= n && FirstOfItsKind(ms, i) && ms[i] == m)
  {
    forall i: nat | i < n
      ensures FirstOfItsKind(ms, i) <==> FirstOfItsKind(ms[..n], i)
    {
    }
    if i: nat :| FirstOfItsKind(ms[..n], i) && ms[..n][i] == m {
      assert FirstOfItsKind(ms, i) && ms[i] == m;
    }
    if i: nat :| FirstOfItsKind(ms, i) && ms[i] == m {
      assert i < n ==> FirstOfItsKind(ms[..n], i) && ms[..n][i] == m;
    }
  }

  lemma {:induction false} StaysStep(ms: seq<Measures>, fs: seq<Measures>, m: Measures)
    requires ms != [] && Sorted(fs)
    requires var front := ms[..|ms| - 1];
      forall m :: m in fs <==> exists i: nat :: FirstOfItsKind(front, i) && front[i] == m
    ensures m in Inserted(fs, ms[|ms| - 1]) <==> exists i: nat :: FirstOfItsKind(ms, i) && ms[i] == m
  {
    InsertedExact(fs, ms[|ms| - 1]);
    LastKept(ms, fs);
    FirstInFront(ms, |ms| - 1, m);
  }

  /** Of the functions with the same NPATH, source file and line the first one stays, and all that differ
      in one of these are kept, in ascending order. */
  lemma {:induction false} FirstStays(ms: seq<Measures>)
    ensures forall m :: m in AllInserted(ms) <==> exists i: nat :: FirstOfItsKind(ms, i) && ms[i] == m
    ensures Sorted(AllInserted(ms))
    decreases |ms|
  {
    if ms != [] {
      var n := |ms| - 1;
      var fs := AllInserted(ms[..n]);
      FirstStays(ms[..n]);
      InsertedExact(fs, ms[n]);
      forall m
        ensures m in AllInserted(ms) <==> exists i: nat :: FirstOfItsKind(ms, i) && ms[i] == m
      {
        StaysStep(ms, fs, m);
      }
    }
  }

  lemma {:induction false} LastKept(ms: seq<Measures>, fs: seq<Measures>)
    requires ms != []
    requires var front := ms[..|ms| - 1];
      forall m :: m in fs <==> exists i: nat :: FirstOfItsKind(front, i) && front[i] == m
    ensures FirstOfItsKind(ms, |ms| - 1) <==> forall y :: y in fs ==> !Alike(y, ms[|ms| - 1])
  {
    var n := |ms| - 1;
    var front := ms[..n];
    if FirstOfItsKind(ms, n) {
      forall y | y in fs
        ensures !Alike(y, ms[n])
      {
        var i: nat :| FirstOfItsKind(front, i) && front[i] == y;
        assert ms[i] == y;
      }
    } else {
      var j :| 0 <= j < n && Alike(ms[j], ms[n]);
      assert front[j] == ms[j];
      var i := FirstExists(front, j, ms[n]);
      assert front[i] in fs;
    }
  }

  class Analyser {
    /** The functions analysed so far, in ascending order. */
    var functions: seq<Measures>

    constructor ()
      ensures functions == []
    {
      functions := [];
    }

    /** The run with exceptions: only the entry block is cleared. */
    method CalculateNpath2(g: FlowGraph, f: DataModel)
      requires |g.adj| >= 2
      modifies f`npathE, f`cyclomaticE
      ensures g.adj == old(g.adj)
      ensures f.npathE == NpathOf(KeepingExit(g.adj))
      ensures f.cyclomaticE == CyclomaticOf(KeepingExit(g.adj))
    {
      var graph := new FlowGraph.Copy(g);
      graph.ClearVertex(0);
      var counter := new NpathCounter(|graph.adj|);
      counter.DepthFirstSearch(graph.adj);
      f.npathE := counter.complexity[1];
      f.cyclomaticE := NumEdges(graph.adj) - |graph.adj| + 2;
    }

    /** The run without exceptions: the exit block is cleared too when there are more than two blocks. */
    method CalculateNpath(g: FlowGraph, f: DataModel)
      requires |g.adj| >= 2
      modifies f`npath, f`cyclomatic
      ensures g.adj == old(g.adj)
      ensures f.npath == NpathOf(DroppingExit(g.adj))
      ensures f.cyclomatic == CyclomaticOf(DroppingExit(g.adj))
    {
      var graph := new FlowGraph.Copy(g);
      graph.ClearVertex(0);
      if |graph.adj| > 2 {
        graph.ClearVertex(|graph.adj| - 1);
      }
      var counter := new NpathCounter(|graph.adj|);
      counter.DepthFirstSearch(graph.adj);
      f.cyclomatic := NumEdges(graph.adj) - |graph.adj| + 2;
      f.npath := counter.complexity[1];
    }

    /** The middle of process: both runs, recorded in one fresh data model. */
    method Measure(fn: FunctionData, g: FlowGraph) returns (m: Measures)
      requires |g.adj| >= 2
      ensures g.adj == old(g.adj)
      ensures m == Measured(fn, g.adj)
    {
      var baz := new DataModel(fn);
      CalculateNpath2(g, baz);
      CalculateNpath(g, baz);
      m := baz.Value();
      MeasuredParts(m, g.adj);
    }

    /** An empty graph is skipped; block 1 must exist in any other. Its measures are added unless a
        function with the same NPATH, source file and line has been recorded. */
    method Process(fn: FunctionData, g: FlowGraph)
      requires |g.adj| != 1 && Sorted(functions)
      modifies this
      ensures g.adj == old(g.adj) && Sorted(functions)
      ensures |g.adj| == 0 ==> functions == old(functions)
      ensures |g.adj| != 0 ==> var m := Measured(fn, g.adj);
        functions == Inserted(old(functions), m) &&
        forall x :: x in functions <==>
          x in old(functions) || (x == m && forall y :: y in old(functions) ==> !Alike(y, m))
    {
      if |g.adj| != 0 {
        var m := Measure(fn, g);
        InsertedExact(functions, m);
        functions := Inserted(functions, m);
      }
    }

    /** Every recorded function is reported, in ascending order. */
    method Report() returns (reported: seq<Measures>)
      requires Sorted(functions)
      ensures Sorted(reported) && forall m :: m in reported <==> m in functions
    {
      reported := [];
      var pos := 0;
      while pos != |functions|
        invariant pos <= |functions| && reported == functions[..pos]
      {
        reported := reported + [functions[pos]];
        pos := pos + 1;
      }
    }
  }
}
