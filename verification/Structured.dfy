/** Structured code: the path count of a flow graph compiled from a loop-free statement tree is the
    compositional NPATH measure, a product over sequences and a sum over branches, plus the paths that
    a call may leave by. */
module Structured {
  import opened Graphs
  import opened Sums
  import opened Paths
  import opened WalkCounts

  // ---------- statements and their flow graphs

  /** A condition; every Test is one block with two out-edges, && and || are short-circuit. */
  datatype Cond = Test | Not(c: Cond) | And(a: Cond, b: Cond) | Or(a: Cond, b: Cond)

  /** A Call ends its block: it comes back, or it leaves the function by an edge to the exit block. */
  datatype Stmt =
    | Simple
    | Call
    | Then(first: Stmt, second: Stmt)
    | If(c: Cond, body: Stmt)
    | IfElse(c: Cond, yes: Stmt, no: Stmt)
    | Switch(arms: Arms, hasDefault: bool)

  /** The arms of a switch, each ended by a break. */
  datatype Arms = Last(s: Stmt) | More(s: Stmt, rest: Arms)

  function CondSize(c: Cond): (n: nat)
    ensures n >= 1
  {
    match c
    case Test => 1
    case Not(d) => CondSize(d)
    case And(a, b) => CondSize(a) + CondSize(b)
    case Or(a, b) => CondSize(a) + CondSize(b)
  }

  function Size(s: Stmt): (n: nat)
    ensures n >= 1
  {
    match s
    case Simple => 1
    case Call => 1
    case Then(a, b) => Size(a) + Size(b)
    case If(c, body) => CondSize(c) + Size(body)
    case IfElse(c, yes, no) => CondSize(c) + (Size(yes) + Size(no))
    case Switch(arms, _) => 1 + ArmsSize(arms)
  }

  function ArmsSize(arms: Arms): (n: nat)
    ensures n >= 1
  {
    match arms
    case Last(s) => Size(s)
    case More(s, rest) => Size(s) + ArmsSize(rest)
  }

  function Pair(a: nat, b: nat): seq<nat> {
    if a < b then [a, b] else [b, a]
  }

  /** The out-edges of block u of a condition whose blocks start at base, and which continues at t when
      true and at f when false. */
  function CondRow(c: Cond, base: nat, t: nat, f: nat, u: nat): seq<nat> {
    match c
    case Test => Pair(t, f)
    case Not(d) => CondRow(d, base, f, t, u)
    case And(a, b) =>
      var m := base + CondSize(a);
      if u < m then CondRow(a, base, m, f, u) else CondRow(b, m, t, f, u)
    case Or(a, b) =>
      var m := base + CondSize(a);
      if u < m then CondRow(a, base, t, m, u) else CondRow(b, m, t, f, u)
  }

  /** The out-edges of block u of a statement whose blocks start at base, and which continues at block k.
      A call leads to k and to the blocks x: the exit block, or none where the exit has been cleared. */
  function Row(s: Stmt, base: nat, k: nat, x: seq<nat>, u: nat): seq<nat> {
    match s
    case Simple => [k]
    case Call => [k] + x
    case Then(a, b) =>
      var m := base + Size(a);
      if u < m then Row(a, base, m, x, u) else Row(b, m, k, x, u)
    case If(c, body) =>
      var b1 := base + CondSize(c);
      if u < b1 then CondRow(c, base, b1, k, u) else Row(body, b1, k, x, u)
    case IfElse(c, yes, no) =>
      var b1 := base + CondSize(c);
      var b2 := b1 + Size(yes);
      if u < b1 then CondRow(c, base, b1, b2, u)
      else if u < b2 then Row(yes, b1, k, x, u)
      else Row(no, b2, k, x, u)
    case Switch(arms, hasDefault) =>
      if u == base then SwitchHead(arms, base, k, hasDefault) else ArmsRow(arms, base + 1, k, x, u)
  }

  /** The out-edges of a switch block: its arms, and past them when there is no default. */
  function SwitchHead(arms: Arms, base: nat, k: nat, hasDefault: bool): seq<nat> {
    Entries(arms, base + 1) + if hasDefault then [] else [k]
  }

  function ArmsRow(arms: Arms, base: nat, k: nat, x: seq<nat>, u: nat): seq<nat> {
    match arms
    case Last(s) => Row(s, base, k, x, u)
    case More(s, rest) =>
      if u < base + Size(s) then Row(s, base, k, x, u) else ArmsRow(rest, base + Size(s), k, x, u)
  }

  function Entries(arms: Arms, base: nat): (r: seq<nat>)
    ensures r != []
  {
    match arms
    case Last(_) => [base]
    case More(s, rest) => [base] + Entries(rest, base + Size(s))
  }

  // ---------- the measures

  /** The ways a condition can come out true, and false. */
  function TrueWays(c: Cond): (n: nat)
    ensures n >= 1
  {
    match c
    case Test => 1
    case Not(d) => FalseWays(d)
    case And(a, b) => TrueWays(a) * TrueWays(b)
    case Or(a, b) => TrueWays(a) + FalseWays(a) * TrueWays(b)
  }

  function FalseWays(c: Cond): (n: nat)
    ensures n >= 1
  {
    match c
    case Test => 1
    case Not(d) => TrueWays(d)
    case And(a, b) => FalseWays(a) + TrueWays(a) * FalseWays(b)
    case Or(a, b) => FalseWays(a) * FalseWays(b)
  }

  /** The ways through a statement to what follows it. */
  function Npath(s: Stmt): (n: nat)
    ensures n >= 1
  {
    match s
    case Simple => 1
    case Call => 1
    case Then(a, b) => Npath(a) * Npath(b)
    case If(c, body) => TrueWays(c) * Npath(body) + FalseWays(c)
    case IfElse(c, yes, no) => TrueWays(c) * Npath(yes) + FalseWays(c) * Npath(no)
    case Switch(arms, hasDefault) => ArmsNpath(arms) + if hasDefault then 0 else 1
  }

  function ArmsNpath(arms: Arms): (n: nat)
    ensures n >= 1
  {
    match arms
    case Last(s) => Npath(s)
    case More(s, rest) => Npath(s) + ArmsNpath(rest)
  }

  /** The ways into a call of the statement that does not come back. */
  function Throws(s: Stmt): nat {
    match s
    case Simple => 0
    case Call => 1
    case Then(a, b) => Throws(a) + Npath(a) * Throws(b)
    case If(c, body) => TrueWays(c) * Throws(body)
    case IfElse(c, yes, no) => TrueWays(c) * Throws(yes) + FalseWays(c) * Throws(no)
    case Switch(arms, _) => ArmsThrows(arms)
  }

  function ArmsThrows(arms: Arms): nat {
    match arms
    case Last(s) => Throws(s)
    case More(s, rest) => Throws(s) + ArmsThrows(rest)
  }

  predicate HasCall(s: Stmt) {
    match s
    case Simple => false
    case Call => true
    case Then(a, b) => HasCall(a) || HasCall(b)
    case If(_, body) => HasCall(body)
    case IfElse(_, yes, no) => HasCall(yes) || HasCall(no)
    case Switch(arms, _) => ArmsHaveCall(arms)
  }

  predicate ArmsHaveCall(arms: Arms) {
    match arms
    case Last(s) => HasCall(s)
    case More(s, rest) => HasCall(s) || ArmsHaveCall(rest)
  }

  lemma ProductPositive(a: nat, b: nat)
    ensures a * b > 0 <==> a > 0 && b > 0
  {
  }

  /** Something is thrown exactly when there is a call somewhere, because every block is reachable. */
  lemma {:induction false} ThrowsIffCall(s: Stmt)
    ensures Throws(s) > 0 <==> HasCall(s)
    decreases s
  {
    match s
    case Simple =>
    case Call =>
    case Then(a, b) =>
      ThrowsIffCall(a);
      ThrowsIffCall(b);
      ProductPositive(Npath(a), Throws(b));
    case If(c, body) =>
      ThrowsIffCall(body);
      ProductPositive(TrueWays(c), Throws(body));
    case IfElse(c, yes, no) =>
      ThrowsIffCall(yes);
      ThrowsIffCall(no);
      ProductPositive(TrueWays(c), Throws(yes));
      ProductPositive(FalseWays(c), Throws(no));
    case Switch(arms, _) => ArmsThrowIffCall(arms);
  }

  lemma {:induction false} ArmsThrowIffCall(arms: Arms)
    ensures ArmsThrows(arms) > 0 <==> ArmsHaveCall(arms)
    decreases arms
  {
    match arms
    case Last(s) => ThrowsIffCall(s);
    case More(s, rest) =>
      ThrowsIffCall(s);
      ArmsThrowIffCall(rest);
  }

  // ---------- code inside a graph

  /** g holds a condition compiled at base that continues at t when true and at f when false. */
  ghost predicate HoldsCond(g: Graph, c: Cond, base: nat, t: nat, f: nat) {
    match c
    case Test => base < |g| && g[base] == Pair(t, f)
    case Not(d) => HoldsCond(g, d, base, f, t)
    case And(a, b) => HoldsCond(g, a, base, base + CondSize(a), f) && HoldsCond(g, b, base + CondSize(a), t, f)
    case Or(a, b) => HoldsCond(g, a, base, t, base + CondSize(a)) && HoldsCond(g, b, base + CondSize(a), t, f)
  }

  /** g holds a statement compiled at base that continues at block k and whose calls lead to x too. */
  ghost predicate Holds(g: Graph, s: Stmt, base: nat, k: nat, x: seq<nat>) {
    match s
    case Simple => base < |g| && g[base] == [k]
    case Call => base < |g| && g[base] == [k] + x
    case Then(a, b) => Holds(g, a, base, base + Size(a), x) && Holds(g, b, base + Size(a), k, x)
    case If(c, body) =>
      HoldsCond(g, c, base, base + CondSize(c), k) && Holds(g, body, base + CondSize(c), k, x)
    case IfElse(c, yes, no) =>
      && HoldsCond(g, c, base, base + CondSize(c), base + CondSize(c) + Size(yes))
      && Holds(g, yes, base + CondSize(c), k, x)
      && Holds(g, no, base + CondSize(c) + Size(yes), k, x)
    case Switch(arms, hasDefault) =>
      base < |g| && g[base] == SwitchHead(arms, base, k, hasDefault) && HoldsArms(g, arms, base + 1, k, x)
  }

  ghost predicate HoldsArms(g: Graph, arms: Arms, base: nat, k: nat, x: seq<nat>) {
    match arms
    case Last(s) => Holds(g, s, base, k, x)
    case More(s, rest) => Holds(g, s, base, k, x) && HoldsArms(g, rest, base + Size(s), k, x)
  }

  ghost predicate CondLaid(g: Graph, c: Cond, base: nat, t: nat, f: nat) {
    base + CondSize(c) <= |g| && forall u :: base <= u < base + CondSize(c) ==> g[u] == CondRow(c, base, t, f, u)
  }

  ghost predicate Laid(g: Graph, s: Stmt, base: nat, k: nat, x: seq<nat>) {
    base + Size(s) <= |g| && forall u :: base <= u < base + Size(s) ==> g[u] == Row(s, base, k, x, u)
  }

  lemma {:induction false} CondHolds(g: Graph, c: Cond, base: nat, t: nat, f: nat)
    requires CondLaid(g, c, base, t, f)
    ensures HoldsCond(g, c, base, t, f)
  {
    match c
    case Test =>
    case Not(d) => CondHolds(g, d, base, f, t);
    case And(a, b) =>
      CondHolds(g, a, base, base + CondSize(a), f);
      CondHolds(g, b, base + CondSize(a), t, f);
    case Or(a, b) =>
      CondHolds(g, a, base, t, base + CondSize(a));
      CondHolds(g, b, base + CondSize(a), t, f);
  }

  /** A graph that consists of these rows holds the statement. */
  lemma {:induction false} StmtHolds(g: Graph, s: Stmt, base: nat, k: nat, x: seq<nat>)
    requires Laid(g, s, base, k, x)
    ensures Holds(g, s, base, k, x)
    decreases s, 1
  {
    match s
    case Simple =>
    case Call =>
    case Then(a, b) => ThenHolds(g, a, b, base, k, x);
    case If(c, body) => IfHolds(g, c, body, base, k, x);
    case IfElse(c, yes, no) => IfElseHolds(g, c, yes, no, base, k, x);
    case Switch(arms, hasDefault) => SwitchHolds(g, arms, hasDefault, base, k, x);
  }

  lemma {:induction false} ThenHolds(g: Graph, a: Stmt, b: Stmt, base: nat, k: nat, x: seq<nat>)
    requires Laid(g, Then(a, b), base, k, x)
    ensures Holds(g, Then(a, b), base, k, x)
    decreases Then(a, b), 0
  {
    var m := base + Size(a);
    ThenParts(g, a, b, base, k, x);
    assert Holds(g, a, base, m, x) by {
      StmtHolds(g, a, base, m, x);
    }
    assert Holds(g, b, m, k, x) by {
      StmtHolds(g, b, m, k, x);
    }
  }

  lemma {:induction false} IfHolds(g: Graph, c: Cond, body: Stmt, base: nat, k: nat, x: seq<nat>)
    requires Laid(g, If(c, body), base, k, x)
    ensures Holds(g, If(c, body), base, k, x)
    decreases If(c, body), 0
  {
    IfParts(g, c, body, base, k, x);
    CondHolds(g, c, base, base + CondSize(c), k);
    StmtHolds(g, body, base + CondSize(c), k, x);
  }

  lemma {:induction false} IfElseHolds(g: Graph, c: Cond, yes: Stmt, no: Stmt, base: nat, k: nat, x: seq<nat>)
    requires Laid(g, IfElse(c, yes, no), base, k, x)
    ensures Holds(g, IfElse(c, yes, no), base, k, x)
    decreases IfElse(c, yes, no), 0
  {
    var b1 := base + CondSize(c);
    IfElseParts(g, c, yes, no, base, k, x);
    CondHolds(g, c, base, b1, b1 + Size(yes));
    StmtHolds(g, yes, b1, k, x);
    StmtHolds(g, no, b1 + Size(yes), k, x);
  }

  lemma {:induction false} SwitchHolds(g: Graph, arms: Arms, hasDefault: bool, base: nat, k: nat, x: seq<nat>)
    requires Laid(g, Switch(arms, hasDefault), base, k, x)
    ensures Holds(g, Switch(arms, hasDefault), base, k, x)
    decreases Switch(arms, hasDefault), 0
  {
    assert g[base] == Row(Switch(arms, hasDefault), base, k, x, base);
    ArmsHold(g, arms, base + 1, k, x);
  }

  lemma {:induction false} ThenParts(g: Graph, a: Stmt, b: Stmt, base: nat, k: nat, x: seq<nat>)
    requires Laid(g, Then(a, b), base, k, x)
    ensures Laid(g, a, base, base + Size(a), x) && Laid(g, b, base + Size(a), k, x)
  {
  }

  lemma {:induction false} IfParts(g: Graph, c: Cond, body: Stmt, base: nat, k: nat, x: seq<nat>)
    requires Laid(g, If(c, body), base, k, x)
    ensures CondLaid(g, c, base, base + CondSize(c), k) && Laid(g, body, base + CondSize(c), k, x)
  {
  }

  lemma {:induction false} IfElseParts(g: Graph, c: Cond, yes: Stmt, no: Stmt, base: nat, k: nat, x: seq<nat>)
    requires Laid(g, IfElse(c, yes, no), base, k, x)
    ensures var b1 := base + CondSize(c); var b2 := b1 + Size(yes);
      CondLaid(g, c, base, b1, b2) && Laid(g, yes, b1, k, x) && Laid(g, no, b2, k, x)
  {
    var s := IfElse(c, yes, no);
    forall u | base <= u < base + Size(s)
      ensures g[u] == Row(s, base, k, x, u)
    {
    }
  }

  lemma {:induction false} ArmsHold(g: Graph, arms: Arms, base: nat, k: nat, x: seq<nat>)
    requires base + ArmsSize(arms) <= |g|
    requires forall u :: base <= u < base + ArmsSize(arms) ==> g[u] == ArmsRow(arms, base, k, x, u)
    ensures HoldsArms(g, arms, base, k, x)
    decreases arms, 1
  {
    match arms
    case Last(s) => StmtHolds(g, s, base, k, x);
    case More(s, rest) =>
      StmtHolds(g, s, base, k, x);
      ArmsHold(g, rest, base + Size(s), k, x);
  }

  // ---------- compiled code runs forward

  /** A row of block u that leads strictly forward: up to block k, or to one of x behind it. */
  ghost predicate ForwardRow(row: seq<nat>, u: nat, k: nat, x: seq<nat>) {
    Ascending(row) && row != [] && forall v :: v in row ==> u < v && (v <= k || v in x)
  }

  ghost predicate Behind(x: seq<nat>, k: nat) {
    Ascending(x) && forall v :: v in x ==> k < v
  }

  lemma {:induction false} CondForward(c: Cond, base: nat, t: nat, f: nat, u: nat, k: nat, x: seq<nat>)
    requires base <= u < base + CondSize(c) && base + CondSize(c) <= t <= k && base + CondSize(c) <= f <= k && t != f
    ensures ForwardRow(CondRow(c, base, t, f, u), u, k, x)
  {
    match c
    case Test =>
    case Not(d) => CondForward(d, base, f, t, u, k, x);
    case And(a, b) =>
      var m := base + CondSize(a);
      if u < m {
        CondForward(a, base, m, f, u, k, x);
      } else {
        CondForward(b, m, t, f, u, k, x);
      }
    case Or(a, b) =>
      var m := base + CondSize(a);
      if u < m {
        CondForward(a, base, t, m, u, k, x);
      } else {
        CondForward(b, m, t, f, u, k, x);
      }
  }

  lemma {:induction false} EntriesForward(arms: Arms, base: nat)
    ensures Ascending(Entries(arms, base))
    ensures forall v :: v in Entries(arms, base) ==> base <= v < base + ArmsSize(arms)
    ensures Entries(arms, base)[0] == base
  {
    match arms
    case Last(_) =>
    case More(s, rest) =>
      EntriesForward(rest, base + Size(s));
      var t := Entries(rest, base + Size(s));
      assert forall i :: 0 <= i < |t| ==> t[i] in t;
  }

  lemma HeadForward(arms: Arms, base: nat, k: nat, hasDefault: bool, x: seq<nat>)
    requires base + 1 + ArmsSize(arms) <= k
    ensures ForwardRow(SwitchHead(arms, base, k, hasDefault), base, k, x)
  {
    EntriesForward(arms, base + 1);
    var es := Entries(arms, base + 1);
    assert forall i :: 0 <= i < |es| ==> es[i] in es;
  }

  lemma CallForward(u: nat, k: nat, x: seq<nat>)
    requires u < k && Behind(x, k)
    ensures ForwardRow([k] + x, u, k, x)
  {
    assert forall i :: 0 <= i < |x| ==> x[i] in x;
  }

  /** The blocks of a statement lead strictly forward and leave it only for block k and for x. */
  lemma {:induction false} StmtForward(s: Stmt, base: nat, k: nat, x: seq<nat>, u: nat)
    requires base <= u < base + Size(s) <= k && Behind(x, k)
    ensures ForwardRow(Row(s, base, k, x, u), u, k, x)
    decreases s
  {
    match s
    case Simple =>
    case Call => CallForward(u, k, x);
    case Then(a, b) =>
      var m := base + Size(a);
      if u < m {
        StmtForward(a, base, m, x, u);
      } else {
        StmtForward(b, m, k, x, u);
      }
    case If(c, body) =>
      var b1 := base + CondSize(c);
      if u < b1 {
        CondForward(c, base, b1, k, u, k, x);
      } else {
        StmtForward(body, b1, k, x, u);
      }
    case IfElse(c, yes, no) =>
      var b1 := base + CondSize(c);
      var b2 := b1 + Size(yes);
      if u < b1 {
        CondForward(c, base, b1, b2, u, k, x);
      } else if u < b2 {
        StmtForward(yes, b1, k, x, u);
      } else {
        StmtForward(no, b2, k, x, u);
      }
    case Switch(arms, hasDefault) =>
      if u == base {
        HeadForward(arms, base, k, hasDefault, x);
      } else {
        ArmsForward(arms, base + 1, k, x, u);
      }
  }

  lemma {:induction false} ArmsForward(arms: Arms, base: nat, k: nat, x: seq<nat>, u: nat)
    requires base <= u < base + ArmsSize(arms) <= k && Behind(x, k)
    ensures ForwardRow(ArmsRow(arms, base, k, x, u), u, k, x)
    decreases arms
  {
    match arms
    case Last(s) => StmtForward(s, base, k, x, u);
    case More(s, rest) =>
      if u < base + Size(s) {
        StmtForward(s, base, k, x, u);
      } else {
        ArmsForward(rest, base + Size(s), k, x, u);
      }
  }

  // ---------- clearing the exit block

  /** The row that clearing the exit block v leaves: the same code, whose calls only come back. */
  ghost predicate Clears(row: seq<nat>, v: nat, left: seq<nat>) {
    Ascending(row) && Without(row, v) == left
  }

  /** A row that does not lead to v stays. */
  lemma RowStays(row: seq<nat>, u: nat, k: nat, v: nat)
    requires ForwardRow(row, u, k, []) && k < v
    ensures Clears(row, v, row)
  {
    WithoutAbsent(row, v);
  }

  lemma CallCleared(k: nat, v: nat)
    requires k < v
    ensures Clears([k] + [v], v, [k] + [])
  {
    assert ([k] + [v])[..1] == [k] == [k] + [];
    WithoutAbsent([k], v);
  }

  lemma CondCleared(c: Cond, base: nat, t: nat, f: nat, u: nat, k: nat, v: nat)
    requires base <= u < base + CondSize(c) && base + CondSize(c) <= t <= k && base + CondSize(c) <= f <= k
    requires t != f && k < v
    ensures Clears(CondRow(c, base, t, f, u), v, CondRow(c, base, t, f, u))
  {
    CondForward(c, base, t, f, u, k, []);
    RowStays(CondRow(c, base, t, f, u), u, k, v);
  }

  lemma HeadCleared(arms: Arms, base: nat, k: nat, hasDefault: bool, v: nat)
    requires base + 1 + ArmsSize(arms) <= k < v
    ensures Clears(SwitchHead(arms, base, k, hasDefault), v, SwitchHead(arms, base, k, hasDefault))
  {
    HeadForward(arms, base, k, hasDefault, []);
    RowStays(SwitchHead(arms, base, k, hasDefault), base, k, v);
  }

  lemma SimpleCleared(k: nat, v: nat)
    requires k < v
    ensures Clears([k], v, [k])
  {
    WithoutAbsent([k], v);
  }

  lemma {:induction false} StmtCleared(s: Stmt, base: nat, k: nat, v: nat, u: nat)
    requires base <= u < base + Size(s) <= k < v
    ensures Clears(Row(s, base, k, [v], u), v, Row(s, base, k, [], u))
    decreases s, 1
  {
    match s
    case Simple => SimpleCleared(k, v);
    case Call => CallCleared(k, v);
    case Then(a, b) => ThenCleared(a, b, base, k, v, u);
    case If(c, body) => IfCleared(c, body, base, k, v, u);
    case IfElse(c, yes, no) => IfElseCleared(c, yes, no, base, k, v, u);
    case Switch(arms, hasDefault) =>
      if u == base {
        HeadCleared(arms, base, k, hasDefault, v);
      } else {
        ArmsCleared(arms, base + 1, k, v, u);
      }
  }

  lemma {:induction false} ThenCleared(a: Stmt, b: Stmt, base: nat, k: nat, v: nat, u: nat)
    requires base <= u < base + Size(Then(a, b)) <= k < v
    ensures Clears(Row(Then(a, b), base, k, [v], u), v, Row(Then(a, b), base, k, [], u))
    decreases Then(a, b), 0
  {
    var m := base + Size(a);
    if u < m {
      StmtCleared(a, base, m, v, u);
    } else {
      StmtCleared(b, m, k, v, u);
    }
  }

  lemma {:induction false} IfCleared(c: Cond, body: Stmt, base: nat, k: nat, v: nat, u: nat)
    requires base <= u < base + Size(If(c, body)) <= k < v
    ensures Clears(Row(If(c, body), base, k, [v], u), v, Row(If(c, body), base, k, [], u))
    decreases If(c, body), 0
  {
    var b1 := base + CondSize(c);
    if u < b1 {
      CondCleared(c, base, b1, k, u, k, v);
    } else {
      StmtCleared(body, b1, k, v, u);
    }
  }

  lemma {:induction false} IfElseCleared(c: Cond, yes: Stmt, no: Stmt, base: nat, k: nat, v: nat, u: nat)
    requires base <= u < base + Size(IfElse(c, yes, no)) <= k < v
    ensures Clears(Row(IfElse(c, yes, no), base, k, [v], u), v, Row(IfElse(c, yes, no), base, k, [], u))
    decreases IfElse(c, yes, no), 0
  {
    var b1 := base + CondSize(c);
    var b2 := b1 + Size(yes);
    if u < b1 {
      CondCleared(c, base, b1, b2, u, k, v);
    } else if u < b2 {
      StmtCleared(yes, b1, k, v, u);
    } else {
      StmtCleared(no, b2, k, v, u);
    }
  }

  lemma {:induction false} ArmsCleared(arms: Arms, base: nat, k: nat, v: nat, u: nat)
    requires base <= u < base + ArmsSize(arms) <= k < v
    ensures Clears(ArmsRow(arms, base, k, [v], u), v, ArmsRow(arms, base, k, [], u))
    decreases arms, 1
  {
    match arms
    case Last(s) => StmtCleared(s, base, k, v, u);
    case More(s, rest) =>
      if u < base + Size(s) {
        StmtCleared(s, base, k, v, u);
      } else {
        ArmsCleared(rest, base + Size(s), k, v, u);
      }
  }

  // ---------- products

  lemma Associate(a: nat, b: nat, c: nat)
    ensures a * (b * c) == (a * b) * c
  {
  }

  /** v is worth n places z and l places y; each z is worth m places x and k places y. */
  lemma WaysCombine(v: nat, z: nat, n: nat, m: nat, k: nat, l: nat, x: nat, y: nat, xs: nat, ys: nat)
    requires v == n * z + l * y && z == m * x + k * y
    requires xs == n * m && ys == l + n * k
    ensures v == xs * x + ys * y
  {
    Associate(n, m, x);
    Associate(n, k, y);
    Distribute(n * k, l, y);
  }

  /** v is worth t places x and f places y, which are worth n and m places z, and i and j places e. */
  lemma BranchCombine(v: nat, x: nat, y: nat, t: nat, f: nat, n: nat, m: nat, z: nat, i: nat, j: nat, e: nat,
                      zs: nat, es: nat)
    requires v == t * x + f * y && x == n * z + i * e && y == m * z + j * e
    requires zs == t * n + f * m && es == t * i + f * j
    ensures v == zs * z + es * e
  {
    Branch(t, n, z, i, e);
    Branch(f, m, z, j, e);
    Distribute(t * n, f * m, z);
    Distribute(t * i, f * j, e);
  }

  /** v is worth t places x and f places z, and x is worth n places z and i places e. */
  lemma OneBranchCombine(v: nat, x: nat, t: nat, f: nat, n: nat, z: nat, i: nat, e: nat, zs: nat, es: nat)
    requires v == t * x + f * z && x == n * z + i * e
    requires zs == t * n + f && es == t * i
    ensures v == zs * z + es * e
  {
    Branch(t, n, z, i, e);
    Distribute(t * n, f, z);
  }

  lemma Branch(t: nat, n: nat, z: nat, i: nat, e: nat)
    ensures t * (n * z + i * e) == (t * n) * z + (t * i) * e
  {
    Associate(t, n, z);
    Associate(t, i, e);
  }

  lemma SumCombine(v: nat, n: nat, m: nat, z: nat, i: nat, j: nat, e: nat)
    requires v == (n * z + i * e) + (m * z + j * e)
    ensures v == (n + m) * z + (i + j) * e
  {
    Distribute(n, m, z);
    Distribute(i, j, e);
  }

  // ---------- counting through compiled code

  /** A table that gives every inner block from lo up to hi the sum of its successors' entries. */
  ghost predicate Weighs(g: Graph, w: seq<nat>, lo: nat, hi: nat) {
    |w| == |g| && forall u {:trigger g[u]} :: lo <= u < hi && u < |g| && g[u] != [] ==> WeighsAt(g[u], w, u)
  }

  ghost predicate WeighsAt(vs: seq<nat>, w: seq<nat>, u: nat)
    requires u < |w|
  {
    Below(vs, |w|) && w[u] == SumAt(w, vs)
  }

  lemma {:induction false} SumAppend(w: seq<nat>, a: seq<nat>, b: seq<nat>)
    requires Below(a, |w|) && Below(b, |w|)
    ensures Below(a + b, |w|) && SumAt(w, a + b) == SumAt(w, a) + SumAt(w, b)
  {
    if b == [] {
      assert a + b == a;
    } else {
      SumAppend(w, a, b[..|b| - 1]);
      assert (a + b)[..|a + b| - 1] == a + b[..|b| - 1];
    }
  }

  lemma SumSingle(w: seq<nat>, v: nat)
    requires v < |w|
    ensures SumAt(w, [v]) == w[v]
  {
    assert SumAt(w, [v][..0]) == 0;
  }

  lemma SumPair(w: seq<nat>, a: nat, b: nat)
    requires Below(Pair(a, b), |w|)
    ensures a < |w| && b < |w| && SumAt(w, Pair(a, b)) == w[a] + w[b]
  {
    var p := Pair(a, b);
    assert p[0] < |w| && p[1] < |w|;
    assert p == [p[0]] + [p[1]];
    SumAppend(w, [p[0]], [p[1]]);
    SumSingle(w, p[0]);
    SumSingle(w, p[1]);
  }

  lemma {:induction false} CondCount(g: Graph, w: seq<nat>, c: Cond, base: nat, t: nat, f: nat, lo: nat, hi: nat)
    requires Weighs(g, w, lo, hi) && lo <= base && base + CondSize(c) <= hi
    requires t < |g| && f < |g| && HoldsCond(g, c, base, t, f)
    ensures base < |g| && w[base] == TrueWays(c) * w[t] + FalseWays(c) * w[f]
  {
    match c
    case Test =>
      assert WeighsAt(g[base], w, base);
      SumPair(w, t, f);
    case Not(d) =>
      CondCount(g, w, d, base, f, t, lo, hi);
    case And(a, b) =>
      var m := base + CondSize(a);
      CondCount(g, w, b, m, t, f, lo, hi);
      CondCount(g, w, a, base, m, f, lo, hi);
      WaysCombine(w[base], w[m], TrueWays(a), TrueWays(b), FalseWays(b), FalseWays(a), w[t], w[f], TrueWays(c),
        FalseWays(c));
    case Or(a, b) =>
      var m := base + CondSize(a);
      CondCount(g, w, b, m, t, f, lo, hi);
      CondCount(g, w, a, base, t, m, lo, hi);
      WaysCombine(w[base], w[m], FalseWays(a), FalseWays(b), TrueWays(b), TrueWays(a), w[f], w[t], FalseWays(c),
        TrueWays(c));
  }

  /** Compiled code multiplies the weight of the block where it continues by its measure, and adds the
      weight of the exit once for every way into a call. */
  lemma {:induction false} StmtCount(g: Graph, w: seq<nat>, s: Stmt, base: nat, k: nat, x: seq<nat>, lo: nat, hi: nat)
    requires Weighs(g, w, lo, hi) && lo <= base && base + Size(s) <= hi
    requires k < |g| && Below(x, |w|) && Holds(g, s, base, k, x)
    ensures base < |g| && w[base] == Npath(s) * w[k] + Throws(s) * SumAt(w, x)
    decreases s, 1
  {
    match s
    case Simple => SimpleCount(g, w, base, k, SumAt(w, x), lo, hi);
    case Call => CallCount(g, w, base, k, x, lo, hi);
    case Then(a, b) => ThenCount(g, w, a, b, base, k, x, lo, hi);
    case If(c, body) => IfCount(g, w, c, body, base, k, x, lo, hi);
    case IfElse(c, yes, no) => IfElseCount(g, w, c, yes, no, base, k, x, lo, hi);
    case Switch(arms, hasDefault) => SwitchCount(g, w, arms, hasDefault, base, k, x, lo, hi);
  }

  lemma {:induction false} SimpleCount(g: Graph, w: seq<nat>, base: nat, k: nat, e: nat, lo: nat, hi: nat)
    requires Weighs(g, w, lo, hi) && lo <= base < hi && k < |g| && base < |g| && g[base] == [k]
    ensures w[base] == 1 * w[k] + 0 * e
  {
    assert WeighsAt(g[base], w, base);
    SumSingle(w, k);
  }

  lemma {:induction false} CallCount(g: Graph, w: seq<nat>, base: nat, k: nat, x: seq<nat>, lo: nat, hi: nat)
    requires Weighs(g, w, lo, hi) && lo <= base < hi && k < |g| && base < |g| && Below(x, |w|) && g[base] == [k] + x
    ensures w[base] == 1 * w[k] + 1 * SumAt(w, x)
  {
    assert WeighsAt(g[base], w, base);
    SumSingle(w, k);
    SumAppend(w, [k], x);
  }

  lemma {:induction false} ThenCount(g: Graph, w: seq<nat>, a: Stmt, b: Stmt, base: nat, k: nat, x: seq<nat>, lo: nat,
                                     hi: nat)
    requires Weighs(g, w, lo, hi) && lo <= base && base + Size(Then(a, b)) <= hi && k < |g| && Below(x, |w|)
    requires Holds(g, Then(a, b), base, k, x)
    ensures base < |g| && w[base] == Npath(Then(a, b)) * w[k] + Throws(Then(a, b)) * SumAt(w, x)
    decreases Then(a, b), 0
  {
    var m := base + Size(a);
    StmtCount(g, w, b, m, k, x, lo, hi);
    StmtCount(g, w, a, base, m, x, lo, hi);
    WaysCombine(w[base], w[m], Npath(a), Npath(b), Throws(b), Throws(a), w[k], SumAt(w, x),
      Npath(Then(a, b)), Throws(Then(a, b)));
  }

  lemma {:induction false} IfCount(g: Graph, w: seq<nat>, c: Cond, body: Stmt, base: nat, k: nat, x: seq<nat>, lo: nat,
                                   hi: nat)
    requires Weighs(g, w, lo, hi) && lo <= base && base + Size(If(c, body)) <= hi && k < |g| && Below(x, |w|)
    requires Holds(g, If(c, body), base, k, x)
    ensures base < |g| && w[base] == Npath(If(c, body)) * w[k] + Throws(If(c, body)) * SumAt(w, x)
    decreases If(c, body), 0
  {
    var b1 := base + CondSize(c);
    StmtCount(g, w, body, b1, k, x, lo, hi);
    CondCount(g, w, c, base, b1, k, lo, hi);
    OneBranchCombine(w[base], w[b1], TrueWays(c), FalseWays(c), Npath(body), w[k], Throws(body), SumAt(w, x),
      Npath(If(c, body)), Throws(If(c, body)));
  }

  lemma {:induction false} IfElseCount(g: Graph, w: seq<nat>, c: Cond, yes: Stmt, no: Stmt, base: nat, k: nat,
                                       x: seq<nat>, lo: nat, hi: nat)
    requires Weighs(g, w, lo, hi) && lo <= base && base + Size(IfElse(c, yes, no)) <= hi && k < |g| && Below(x, |w|)
    requires Holds(g, IfElse(c, yes, no), base, k, x)
    ensures base < |g| && w[base] == Npath(IfElse(c, yes, no)) * w[k] + Throws(IfElse(c, yes, no)) * SumAt(w, x)
    decreases IfElse(c, yes, no), 0
  {
    var b1 := base + CondSize(c);
    var b2 := b1 + Size(yes);
    BranchesCount(g, w, c, yes, no, b1, b2, k, x, lo, hi);
    CondCount(g, w, c, base, b1, b2, lo, hi);
    BranchCombine(w[base], w[b1], w[b2], TrueWays(c), FalseWays(c), Npath(yes), Npath(no), w[k], Throws(yes),
      Throws(no), SumAt(w, x), Npath(IfElse(c, yes, no)), Throws(IfElse(c, yes, no)));
  }

  lemma {:induction false} BranchesCount(g: Graph, w: seq<nat>, c: Cond, yes: Stmt, no: Stmt, b1: nat, b2: nat, k: nat,
                                         x: seq<nat>, lo: nat, hi: nat)
    requires Weighs(g, w, lo, hi) && lo <= b1 && b2 == b1 + Size(yes) && b2 + Size(no) <= hi && k < |g| && Below(x, |w|)
    requires Holds(g, yes, b1, k, x) && Holds(g, no, b2, k, x)
    ensures b1 < |g| && w[b1] == Npath(yes) * w[k] + Throws(yes) * SumAt(w, x)
    ensures b2 < |g| && w[b2] == Npath(no) * w[k] + Throws(no) * SumAt(w, x)
    decreases IfElse(c, yes, no), 0, 0
  {
    StmtCount(g, w, yes, b1, k, x, lo, hi);
    StmtCount(g, w, no, b2, k, x, lo, hi);
  }

  lemma {:induction false} SwitchCount(g: Graph, w: seq<nat>, arms: Arms, hasDefault: bool, base: nat, k: nat,
                                       x: seq<nat>, lo: nat, hi: nat)
    requires Weighs(g, w, lo, hi) && lo <= base && base + Size(Switch(arms, hasDefault)) <= hi
    requires k < |g| && Below(x, |w|)
    requires Holds(g, Switch(arms, hasDefault), base, k, x)
    ensures base < |g|
    ensures w[base] == Npath(Switch(arms, hasDefault)) * w[k] + Throws(Switch(arms, hasDefault)) * SumAt(w, x)
    decreases Switch(arms, hasDefault), 0
  {
    assert WeighsAt(g[base], w, base);
    ArmsCount(g, w, arms, base + 1, k, x, lo, hi);
    SwitchSum(w, Entries(arms, base + 1), k, hasDefault, ArmsNpath(arms), ArmsThrows(arms), SumAt(w, x));
  }

  lemma SwitchSum(w: seq<nat>, es: seq<nat>, k: nat, hasDefault: bool, n: nat, t: nat, e: nat)
    requires Below(es, |w|) && k < |w| && SumAt(w, es) == n * w[k] + t * e
    ensures var head := es + if hasDefault then [] else [k];
      Below(head, |w|) && SumAt(w, head) == (n + if hasDefault then 0 else 1) * w[k] + t * e
  {
    if hasDefault {
      assert es + [] == es;
    } else {
      SumAppend(w, es, [k]);
      SumSingle(w, k);
      SumCombine(SumAt(w, es) + w[k], n, 1, w[k], t, 0, e);
    }
  }

  lemma {:induction false} ArmsCount(g: Graph, w: seq<nat>, arms: Arms, base: nat, k: nat, x: seq<nat>, lo: nat,
                                     hi: nat)
    requires Weighs(g, w, lo, hi) && lo <= base && base + ArmsSize(arms) <= hi
    requires k < |g| && Below(x, |w|) && HoldsArms(g, arms, base, k, x)
    ensures var es := Entries(arms, base);
      Below(es, |w|) && SumAt(w, es) == ArmsNpath(arms) * w[k] + ArmsThrows(arms) * SumAt(w, x)
    decreases arms, 1
  {
    match arms
    case Last(s) =>
      StmtCount(g, w, s, base, k, x, lo, hi);
      SumSingle(w, base);
    case More(s, rest) =>
      StmtCount(g, w, s, base, k, x, lo, hi);
      ArmsCount(g, w, rest, base + Size(s), k, x, lo, hi);
      var es := Entries(rest, base + Size(s));
      SumSingle(w, base);
      SumAppend(w, [base], es);
      SumCombine(w[base] + SumAt(w, es), Npath(s), ArmsNpath(rest), w[k], Throws(s), ArmsThrows(rest), SumAt(w, x));
  }

  // ---------- path counts are weights

  ghost function PathCounts(g: Graph): (w: seq<nat>)
    requires WellFormed(g) && Acyclic(g)
    ensures |w| == |g| && forall u :: 0 <= u < |g| ==> w[u] == PathCount(g, u)
  {
    seq(|g|, u requires 0 <= u < |g| => PathCount(g, u))
  }

  lemma {:induction false} CountIsSum(g: Graph, u: nat, i: nat)
    requires WellFormed(g) && Acyclic(g) && u < |g| && i <= |g[u]|
    ensures CountFrom(g, u, i) == SumAt(PathCounts(g), g[u][i..])
    decreases |g[u]| - i
  {
    if i < |g[u]| {
      CountIsSum(g, u, i + 1);
      assert g[u][i..] == [g[u][i]] + g[u][i + 1..];
      SumAppend(PathCounts(g), [g[u][i]], g[u][i + 1..]);
      SumSingle(PathCounts(g), g[u][i]);
    }
  }

  lemma PathCountsWeigh(g: Graph)
    requires WellFormed(g) && Acyclic(g)
    ensures Weighs(g, PathCounts(g), 0, |g|)
  {
    forall u | 0 <= u < |g| && g[u] != []
      ensures WeighsAt(g[u], PathCounts(g), u)
    {
      CountIsSum(g, u, 0);
      assert g[u][0..] == g[u];
    }
  }

  // ---------- numbers of walks are weights, except where they end

  ghost function WalkCountsTo(g: Graph, v: nat): (w: seq<nat>)
    requires WellFormed(g) && Acyclic(g)
    ensures |w| == |g| && forall u :: 0 <= u < |g| ==> w[u] == PathsTo(g, u, v)
  {
    seq(|g|, u requires 0 <= u < |g| => PathsTo(g, u, v))
  }

  lemma {:induction false} WalksAreSum(g: Graph, u: nat, v: nat, i: nat)
    requires WellFormed(g) && Acyclic(g) && u < |g| && i <= |g[u]|
    ensures PathsToFrom(g, u, v, i) == SumAt(WalkCountsTo(g, v), g[u][i..])
    decreases |g[u]| - i
  {
    if i < |g[u]| {
      WalksAreSum(g, u, v, i + 1);
      assert g[u][i..] == [g[u][i]] + g[u][i + 1..];
      SumAppend(WalkCountsTo(g, v), [g[u][i]], g[u][i + 1..]);
      SumSingle(WalkCountsTo(g, v), g[u][i]);
    }
  }

  lemma WalkCountsWeigh(g: Graph, v: nat, lo: nat, hi: nat)
    requires WellFormed(g) && Acyclic(g) && (v < lo || hi <= v)
    ensures Weighs(g, WalkCountsTo(g, v), lo, hi)
  {
    var w := WalkCountsTo(g, v);
    forall u | lo <= u < hi && u < |g| && g[u] != []
      ensures WeighsAt(g[u], w, u)
    {
      WalksAreSum(g, u, v, 0);
      assert g[u][0..] == g[u];
    }
  }

  // ---------- what the measures count

  lemma {:induction false} SumZero(w: seq<nat>, x: seq<nat>)
    requires Below(x, |w|) && forall i :: 0 <= i < |x| ==> w[x[i]] == 0
    ensures SumAt(w, x) == 0
  {
    if x != [] {
      SumZero(w, x[..|x| - 1]);
    }
  }

  /** No walk leads from a block without successors to another block. */
  lemma DeadEnds(g: Graph, k: nat, x: seq<nat>)
    requires WellFormed(g) && Acyclic(g) && Below(x, |g|) && forall i :: 0 <= i < |x| ==> x[i] != k && g[x[i]] == []
    ensures SumAt(WalkCountsTo(g, k), x) == 0
  {
    forall i | 0 <= i < |x|
      ensures PathsTo(g, x[i], k) == 0
    {
      assert PathsTo(g, x[i], k) == PathsToFrom(g, x[i], k, 0);
    }
    SumZero(WalkCountsTo(g, k), x);
  }

  /** Npath(s) is the number of walks through the code to where it continues. */
  lemma {:induction false} NpathCountsWalks(g: Graph, s: Stmt, base: nat, k: nat, x: seq<nat>)
    requires WellFormed(g) && Acyclic(g) && Holds(g, s, base, k, x) && base + Size(s) <= k < |g|
    requires Below(x, |g|) && forall i :: 0 <= i < |x| ==> x[i] != k && g[x[i]] == []
    ensures base < |g| && PathsTo(g, base, k) == Npath(s)
  {
    var w := WalkCountsTo(g, k);
    WalkCountsWeigh(g, k, base, base + Size(s));
    DeadEnds(g, k, x);
    StmtCount(g, w, s, base, k, x, base, base + Size(s));
    OneTimes(Npath(s), Throws(s));
  }

  lemma OneTimes(n: nat, t: nat)
    ensures n * 1 + t * 0 == n
  {
  }

  /** The paths through compiled code: through it to block k, and out of its calls at the exit v. */
  lemma {:induction false} CodePaths(g: Graph, s: Stmt, base: nat, k: nat, v: nat)
    requires WellFormed(g) && Acyclic(g) && Holds(g, s, base, k, [v]) && base + Size(s) <= k < v < |g| && g[v] == []
    ensures base < |g| && PathsTo(g, base, k) == Npath(s)
    ensures PathCount(g, base) == PathsTo(g, base, k) * PathCount(g, k) + Throws(s)
  {
    NpathCountsWalks(g, s, base, k, [v]);
    PathCountsWeigh(g);
    SumSingle(PathCounts(g), v);
    StmtCount(g, PathCounts(g), s, base, k, [v], 0, |g|);
  }

  /** Every path through compiled code reaches the block behind it exactly when there is no call. */
  lemma {:induction false} EveryPathContinues(g: Graph, s: Stmt, base: nat, k: nat, v: nat)
    requires WellFormed(g) && Acyclic(g) && Holds(g, s, base, k, [v]) && base + Size(s) <= k < v < |g| && g[v] == []
    ensures base < |g| && (EveryPathThrough(g, base, k) <==> !HasCall(s))
  {
    CodePaths(g, s, base, k, v);
    CountsMultiplyExact(g, base, k);
    ThrowsIffCall(s);
  }
}
