/** Finite sums of weights, over lists of blocks and over sets of blocks. */
module Sums {
  import opened Graphs

  predicate Distinct(s: seq<nat>) {
    forall i, j :: 0 <= i < j < |s| ==> s[i] != s[j]
  }

  function SumAt(w: seq<nat>, s: seq<nat>): nat
    requires Below(s, |w|)
  {
    if s == [] then 0 else SumAt(w, s[..|s| - 1]) + w[s[|s| - 1]]
  }

  function Dropped(s: seq<nat>, j: nat): seq<nat>
    requires j < |s|
  {
    s[..j] + s[j + 1..]
  }

  lemma {:induction false} SumDropped(w: seq<nat>, s: seq<nat>, j: nat)
    requires Below(s, |w|) && j < |s|
    ensures SumAt(w, s) == SumAt(w, Dropped(s, j)) + w[s[j]]
  {
    if j == |s| - 1 {
      assert Dropped(s, j) == s[..j];
    } else {
      var front := s[..|s| - 1];
      SumDropped(w, front, j);
      assert Dropped(s, j)[..|s| - 2] == Dropped(front, j);
    }
  }

  /** A list without repetitions weighs no more than any list that contains its elements. */
  lemma {:induction false} SumContained(w: seq<nat>, a: seq<nat>, b: seq<nat>)
    requires Below(a, |w|) && Below(b, |w|) && Distinct(a)
    requires forall x :: x in a ==> x in b
    ensures SumAt(w, a) <= SumAt(w, b)
  {
    if a != [] {
      var front, x := a[..|a| - 1], a[|a| - 1];
      assert x in a;
      var j :| 0 <= j < |b| && b[j] == x;
      SumDropped(w, b, j);
      forall y | y in front
        ensures y in Dropped(b, j)
      {
        assert y in a && y != x;
        var i :| 0 <= i < |b| && b[i] == y;
        assert Dropped(b, j)[if i < j then i else i - 1] == y;
      }
      SumContained(w, front, Dropped(b, j));
    }
  }

  function UpTo(n: nat): (r: seq<nat>)
    ensures |r| == n && forall i :: 0 <= i < n ==> r[i] == i
  {
    seq(n, i => i)
  }

  lemma InUpTo(n: nat)
    ensures forall x: nat :: x < n ==> x in UpTo(n)
  {
    forall x: nat | x < n
      ensures x in UpTo(n)
    {
      assert UpTo(n)[x] == x;
    }
  }

  function Degrees(g: Graph): (r: seq<nat>)
    ensures |r| == |g| && forall u :: 0 <= u < |g| ==> r[u] == |g[u]|
  {
    seq(|g|, u requires 0 <= u < |g| => |g[u]|)
  }

  lemma {:induction false} DegreesSum(g: Graph, k: nat)
    requires k <= |g|
    ensures SumAt(Degrees(g), UpTo(k)) == OutEdges(g, k)
  {
    if k != 0 {
      assert UpTo(k)[..k - 1] == UpTo(k - 1);
      DegreesSum(g, k - 1);
    }
  }

  /** A complete enumeration of the blocks meets every edge once, at its source. */
  lemma EnumerationCountsEdges(g: Graph, order: seq<nat>)
    requires Below(order, |g|) && Distinct(order)
    requires forall x: nat :: x < |g| ==> x in order
    ensures SumAt(Degrees(g), order) == NumEdges(g)
  {
    var all := UpTo(|g|);
    InUpTo(|g|);
    SumContained(Degrees(g), order, all);
    SumContained(Degrees(g), all, order);
    DegreesSum(g, |g|);
  }

  lemma {:induction false} DistinctLength(s: seq<nat>, n: nat)
    requires Distinct(s) && Below(s, n)
    ensures |s| <= n
  {
    var ones := seq(n, _ => 1);
    InUpTo(n);
    assert forall x :: x in s ==> x in UpTo(n);
    SumContained(ones, s, UpTo(n));
    SumOnes(ones, s);
    SumOnes(ones, UpTo(n));
  }

  /** A list of all the numbers below n, each once, has n elements. */
  lemma EnumerationLength(s: seq<nat>, n: nat)
    requires Distinct(s) && Below(s, n) && forall x: nat :: x < n ==> x in s
    ensures |s| == n
  {
    var ones := seq(n, _ => 1);
    DistinctLength(s, n);
    SumContained(ones, UpTo(n), s);
    SumOnes(ones, UpTo(n));
    SumOnes(ones, s);
  }

  lemma {:induction false} SumOnes(w: seq<nat>, s: seq<nat>)
    requires Below(s, |w|) && forall i :: 0 <= i < |w| ==> w[i] == 1
    ensures SumAt(w, s) == |s|
  {
    if s != [] {
      SumOnes(w, s[..|s| - 1]);
    }
  }
}
