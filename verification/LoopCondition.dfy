/** The exact condition under which the record loop ends: two turns never start at the same word, and
    so at most as many turns go on as the file has words. */
module LoopCondition {
  import opened Graphs
  import opened Words
  import opened Tags
  import opened Cursors
  import opened Records
  import opened Sums
  import opened NoteReader
  import opened ReaderLoop

  // ---------- what decides about a turn

  /** Cursors from which the same words will be read. */
  ghost predicate SameSpot(c: Cursor, d: Cursor) {
    c.pos == d.pos && c.stuck == d.stuck
  }

  /** Two running states at the same spot; the second knows a function if the first does. */
  ghost predicate Similar(a: State, b: State) {
    a.status == Running && b.status == Running && SameSpot(a.c, b.c) && Known(a, b)
  }

  ghost predicate Known(a: State, b: State) {
    a.p.current.Some? ==> b.p.current.Some?
  }

  lemma SameRead(f: File, c: Cursor, d: Cursor, n: nat)
    requires SameSpot(c, d)
    ensures SameSpot(AfterRead(f, c, n), AfterRead(f, d, n)) && WordsAt(f, c, n) == WordsAt(f, d, n)
  {
  }

  lemma SameUnsigned(f: File, e: bool, c: Cursor, d: Cursor)
    requires SameSpot(c, d)
    ensures UnsignedAt(f, e, c) == UnsignedAt(f, e, d) && SameSpot(AfterRead(f, c, 1), AfterRead(f, d, 1))
  {
    SameRead(f, c, d, 1);
  }

  lemma SameString(f: File, e: bool, c: Cursor, d: Cursor)
    requires SameSpot(c, d)
    ensures StringAt(f, e, c) == StringAt(f, e, d) && SameSpot(AfterString(f, e, c), AfterString(f, e, d))
  {
    SameUnsigned(f, e, c, d);
    SameText(f, AfterRead(f, c, 1), AfterRead(f, d, 1), Value(UnsignedAt(f, e, c)));
  }

  lemma SameText(f: File, c: Cursor, d: Cursor, n: nat)
    requires SameSpot(c, d)
    ensures TextAt(f, c, n) == TextAt(f, d, n) && SameSpot(AfterText(f, c, n), AfterText(f, d, n))
  {
    SameRead(f, c, d, n);
  }

  lemma {:induction false} SameReads(f: File, c: Cursor, d: Cursor, k: nat, n: nat)
    requires SameSpot(c, d)
    ensures SameSpot(AfterReads(f, c, k, n), AfterReads(f, d, k, n))
    decreases n
  {
    if n != 0 {
      SameRead(f, c, d, k);
      SameReads(f, AfterRead(f, c, k), AfterRead(f, d, k), k, n - 1);
    }
  }

  lemma {:induction false} SamePairs(f: File, c: Cursor, d: Cursor, n: nat)
    requires SameSpot(c, d)
    ensures SameSpot(AfterPairs(f, c, n), AfterPairs(f, d, n))
    decreases n
  {
    if n != 0 {
      SameRead(f, c, d, 1);
      SameRead(f, AfterRead(f, c, 1), AfterRead(f, d, 1), 1);
      SamePairs(f, AfterRead(f, AfterRead(f, c, 1), 1), AfterRead(f, AfterRead(f, d, 1), 1), n - 1);
    }
  }

  lemma SameSummary(f: File, c: Cursor, d: Cursor)
    requires SameSpot(c, d)
    ensures SameSpot(AfterSummary(f, c), AfterSummary(f, d))
  {
    var c1, d1 := AfterRead(f, c, 1), AfterRead(f, d, 1);
    SameRead(f, c, d, 1);
    SameReads(f, c1, d1, 1, 2);
    SameReads(f, AfterReads(f, c1, 1, 2), AfterReads(f, d1, 1, 2), 2, 3);
  }

  // ---------- the handlers

  /** From similar states a handler that goes on in the first goes on in the second, to the same spot. */
  ghost predicate GoesAlong(r: State, q: State) {
    r.status == Running ==> Similar(r, q)
  }

  lemma FilenameAlong(f: File, e: bool, c: Cursor, d: Cursor, a: Progress, b: Progress, name: Bytes)
    requires SameSpot(c, d)
    ensures GoesAlong(AfterFilename(f, e, c, a, name), AfterFilename(f, e, d, b, name))
  {
    SameString(f, e, c, d);
    SameRead(f, AfterString(f, e, c), AfterString(f, e, d), 1);
  }

  lemma {:induction false} NamesAlong(f: File, e: bool, c: Cursor, d: Cursor, a: Progress, b: Progress)
    requires SameSpot(c, d)
    ensures GoesAlong(AfterNames(f, e, c, a), AfterNames(f, e, d, b))
  {
    SameString(f, e, c, d);
    match StringAt(f, e, c)
    case Text(name) => FilenameAlong(f, e, AfterString(f, e, c), AfterString(f, e, d), a, b, name);
    case _ =>
  }

  lemma {:induction false} FunctionAlong(f: File, e: bool, a: State, b: State, len: nat)
    requires Similar(a, b)
    ensures GoesAlong(AfterFunction(f, e, a, len), AfterFunction(f, e, b, len))
  {
    var c1, d1 := AfterRead(f, a.c, 1), AfterRead(f, b.c, 1);
    SameRead(f, a.c, b.c, 1);
    SameRead(f, c1, d1, 1);
    NamesAlong(f, e, AfterRead(f, c1, 1), AfterRead(f, d1, 1), a.p.(processed := Flush(a.p)),
      b.p.(processed := Flush(b.p)));
  }

  lemma ArcsAlong(f: File, e: bool, a: State, b: State, len: nat)
    requires Similar(a, b)
    ensures GoesAlong(AfterArcs(f, e, a, len), AfterArcs(f, e, b, len))
  {
    SameRead(f, a.c, b.c, 1);
    SamePairs(f, AfterRead(f, a.c, 1), AfterRead(f, b.c, 1), ArcsNum(len));
  }

  lemma {:induction false} LineItemsAlong(f: File, e: bool, a: State, b: State, block: int, filename: Bytes)
    requires Similar(a, b)
    ensures GoesAlong(AfterLineItems(f, e, a, block, filename), AfterLineItems(f, e, b, block, filename))
    decreases Left(f, a.c), 1
  {
    var line := Value(UnsignedAt(f, e, a.c));
    var a1, b1 := a.(c := AfterRead(f, a.c, 1)), b.(c := AfterRead(f, b.c, 1));
    SameUnsigned(f, e, a.c, b.c);
    ValueZero(0);
    if line == 0 {
      SourceAlong(f, e, a1, b1, block);
    } else if a.p.current.Some? {
      LineItemsAlong(f, e, a1.(p := WithLine(a.p, ToInt(line), block, filename)),
        b1.(p := WithLine(b.p, ToInt(line), block, filename)), block, filename);
    }
  }

  lemma {:induction false} SourceAlong(f: File, e: bool, a: State, b: State, block: int)
    requires Similar(a, b)
    ensures GoesAlong(AfterSource(f, e, a, block), AfterSource(f, e, b, block))
    decreases Left(f, a.c), 0
  {
    SameString(f, e, a.c, b.c);
    match StringAt(f, e, a.c)
    case Text(source) =>
      LineItemsAlong(f, e, a.(c := AfterString(f, e, a.c)), b.(c := AfterString(f, e, b.c)), block, source);
    case _ =>
  }

  lemma LinesAlong(f: File, e: bool, a: State, b: State)
    requires Similar(a, b)
    ensures GoesAlong(AfterLines(f, e, a), AfterLines(f, e, b))
  {
    SameUnsigned(f, e, a.c, b.c);
    LineItemsAlong(f, e, a.(c := AfterRead(f, a.c, 1)), b.(c := AfterRead(f, b.c, 1)),
      ToInt(Value(UnsignedAt(f, e, a.c))), []);
  }

  lemma {:induction false} HandledAlong(f: File, e: bool, a: State, b: State, tag: Word, len: nat)
    requires Similar(a, b)
    ensures GoesAlong(Handled(f, e, a, tag, len), Handled(f, e, b, tag, len))
  {
    if tag == TAG_FUNCTION {
      FunctionAlong(f, e, a, b, len);
    } else if tag == TAG_ARCS {
      ArcsAlong(f, e, a, b, len);
    } else if tag == TAG_LINES {
      LinesAlong(f, e, a, b);
    }
    SameReads(f, a.c, b.c, 1, len);
    SameReads(f, a.c, b.c, 2, len / 2);
    SameSummary(f, a.c, b.c);
  }

  lemma ResumedAlong(r: State, q: State, base: nat, len: nat)
    requires GoesAlong(r, q)
    ensures GoesAlong(Resumed(r, base, len), Resumed(q, base, len))
  {
  }

  lemma {:induction false} TagAlong(f: File, e: bool, a: State, b: State, tag: Word)
    requires Similar(a, b)
    ensures GoesAlong(AfterTag(f, e, a, tag), AfterTag(f, e, b, tag))
  {
    var len := Value(UnsignedAt(f, e, a.c));
    var a1, b1 := a.(c := AfterRead(f, a.c, 1)), b.(c := AfterRead(f, b.c, 1));
    SameUnsigned(f, e, a.c, b.c);
    HandledAlong(f, e, a1, b1, tag, len);
    ResumedAlong(Handled(f, e, a1, tag, len), Handled(f, e, b1, tag, len), a1.c.pos, len);
  }

  /** A turn that goes on goes on from every similar state, to the same spot. */
  lemma {:induction false} StepAlong(f: File, e: bool, a: State, b: State)
    requires Similar(a, b)
    ensures GoesAlong(Step(f, e, a), Step(f, e, b))
  {
    SameUnsigned(f, e, a.c, b.c);
    TagAlong(f, e, a.(c := AfterRead(f, a.c, 1)), b.(c := AfterRead(f, b.c, 1)), UnsignedAt(f, e, a.c));
  }

  // ---------- a function once known stays known

  lemma {:induction false} LineItemsKeep(f: File, e: bool, s: State, block: int, filename: Bytes)
    requires s.p.current.Some?
    ensures AfterLineItems(f, e, s, block, filename).p.current.Some?
    decreases Left(f, s.c), 1
  {
    var line := Value(UnsignedAt(f, e, s.c));
    var t := s.(c := AfterRead(f, s.c, 1));
    ValueZero(0);
    if line == 0 {
      SourceKeeps(f, e, t, block);
    } else {
      LineItemsKeep(f, e, t.(p := WithLine(s.p, ToInt(line), block, filename)), block, filename);
    }
  }

  lemma {:induction false} SourceKeeps(f: File, e: bool, s: State, block: int)
    requires s.p.current.Some?
    ensures AfterSource(f, e, s, block).p.current.Some?
    decreases Left(f, s.c), 0
  {
    match StringAt(f, e, s.c)
    case Text(source) => LineItemsKeep(f, e, s.(c := AfterString(f, e, s.c)), block, source);
    case _ =>
  }

  lemma NamesKeep(f: File, e: bool, c: Cursor, p: Progress)
    requires p.current.Some?
    ensures AfterNames(f, e, c, p).p.current.Some?
  {
    match StringAt(f, e, c)
    case Text(name) => assert AfterFilename(f, e, AfterString(f, e, c), p, name).p.current.Some?;
    case _ =>
  }

  lemma HandledKeeps(f: File, e: bool, s: State, tag: Word, len: nat)
    requires s.p.current.Some?
    ensures Handled(f, e, s, tag, len).p.current.Some?
  {
    if tag == TAG_FUNCTION {
      NamesKeep(f, e, AfterRead(f, AfterRead(f, s.c, 1), 1), s.p.(processed := Flush(s.p)));
    } else if tag == TAG_LINES {
      LineItemsKeep(f, e, s.(c := AfterRead(f, s.c, 1)), ToInt(Value(UnsignedAt(f, e, s.c))), []);
    }
  }

  lemma ResumedKeeps(t: State, base: nat, len: nat)
    requires t.p.current.Some?
    ensures Resumed(t, base, len).p.current.Some?
  {
  }

  lemma TagKeeps(f: File, e: bool, s: State, tag: Word)
    requires s.p.current.Some?
    ensures AfterTag(f, e, s, tag).p.current.Some?
  {
    var t, len := s.(c := AfterRead(f, s.c, 1)), Value(UnsignedAt(f, e, s.c));
    HandledKeeps(f, e, t, tag, len);
    ResumedKeeps(Handled(f, e, t, tag, len), t.c.pos, len);
  }

  lemma StepKeeps(f: File, e: bool, s: State)
    ensures Known(s, Step(f, e, s))
  {
    if s.p.current.Some? {
      TagKeeps(f, e, s.(c := AfterRead(f, s.c, 1)), UnsignedAt(f, e, s.c));
    }
  }

  // ---------- turns

  lemma {:induction false} RanBefore(f: File, e: bool, s: State, m: nat, n: nat)
    requires m <= n && Turns(f, e, s, n).status == Running
    ensures Turns(f, e, s, m).status == Running && Known(Turns(f, e, s, m), Turns(f, e, s, n))
    decreases n
  {
    if m < n {
      NextTurn(f, e, s, n - 1);
      RanBefore(f, e, s, m, n - 1);
      StepKeeps(f, e, Turns(f, e, s, n - 1));
    }
  }

  /** From two similar states on, the turns repeat. */
  lemma {:induction false} TurnsPeriodic(f: File, e: bool, s: State, i: nat, j: nat, m: nat)
    requires i < j && Similar(Turns(f, e, s, i), Turns(f, e, s, j))
    ensures Similar(Turns(f, e, s, i + m), Turns(f, e, s, j + m))
    decreases m
  {
    if m != 0 {
      var a, b := Turns(f, e, s, i + m - 1), Turns(f, e, s, j + m - 1);
      assert Similar(a, b) by {
        TurnsPeriodic(f, e, s, i, j, m - 1);
      }
      assert Turns(f, e, s, i + m).status == Running by {
        RanBefore(f, e, s, i + m, j + m - 1);
      }
      assert Turns(f, e, s, i + m) == Step(f, e, a) && Turns(f, e, s, j + m) == Step(f, e, b) by {
        NextTurn(f, e, s, i + m - 1);
        NextTurn(f, e, s, j + m - 1);
      }
      StepAlong(f, e, a, b);
    }
  }

  lemma RunsForever(f: File, e: bool, s: State, i: nat, j: nat)
    requires i < j && Similar(Turns(f, e, s, i), Turns(f, e, s, j))
    ensures forall n: nat :: Turns(f, e, s, n).status == Running
  {
    forall n: nat
      ensures Turns(f, e, s, n).status == Running
    {
      if n <= j {
        RanBefore(f, e, s, n, j);
      } else {
        TurnsPeriodic(f, e, s, i, j, n - j);
        assert j + (n - j) == n;
      }
    }
  }

  /** Where the first n turns start. */
  function Spots(f: File, e: bool, s: State, n: nat): (r: seq<nat>)
    ensures |r| == n && forall i :: 0 <= i < n ==> r[i] == Turns(f, e, s, i).c.pos
  {
    seq(n, i requires 0 <= i < n => Turns(f, e, s, i).c.pos)
  }

  lemma SpotsBelow(f: File, e: bool, s: State, n: nat)
    requires Turns(f, e, s, n).status == Running
    ensures Below(Spots(f, e, s, n), |f|)
    ensures forall i :: 0 <= i < n ==> !Turns(f, e, s, i).c.stuck
  {
    forall i | 0 <= i < n
      ensures Turns(f, e, s, i).c.pos < |f| && !Turns(f, e, s, i).c.stuck
    {
      RanBefore(f, e, s, i, n);
      RanBefore(f, e, s, i + 1, n);
      NextTurn(f, e, s, i);
      TurnLands(f, e, Turns(f, e, s, i));
    }
  }

  /** Within as many turns as the file has words, and one, it is known what becomes of the loop: it goes
      on for ever exactly when it is still running then, because two turns have started at the same word;
      the source's loop ends exactly when it has ended by then; and the model gives up exactly when it has
      given up by then. */
  lemma {:induction false} EndsExact(f: File, e: bool, s: State)
    ensures Halts(f, e, s) <==> Turns(f, e, s, |f| + 1).status != Running
    ensures Ends(f, e, s) <==> Turns(f, e, s, |f| + 1).status !in {Running, Oversized}
    ensures !Halts(f, e, s) ==> forall n: nat :: Turns(f, e, s, n).status == Running
  {
    var n := |f| + 1;
    if Turns(f, e, s, n).status == Running {
      SpotsBelow(f, e, s, n);
      var spots := Spots(f, e, s, n);
      if Distinct(spots) {
        DistinctLength(spots, |f|);
      }
      var i, j :| 0 <= i < j < |spots| && spots[i] == spots[j];
      RanBefore(f, e, s, j, n);
      RanBefore(f, e, s, i, j);
      RunsForever(f, e, s, i, j);
    } else {
      LoopIs(f, e, s, n);
    }
  }

  // ---------- the condition by the headers alone

  /** n steps of the walk from header to header. */
  ghost function Hop(f: File, e: bool, p: nat, n: nat): nat
    decreases n
  {
    if n == 0 || !HeaderAt(f, e, p) then p else Hop(f, e, Next(f, e, p), n - 1)
  }

  lemma {:induction false} NextHop(f: File, e: bool, p: nat, n: nat)
    ensures var q := Hop(f, e, p, n);
      Hop(f, e, p, n + 1) == if HeaderAt(f, e, q) then Next(f, e, q) else q
    decreases n
  {
    if n == 0 {
      assert Hop(f, e, p, 1) == if HeaderAt(f, e, p) then Hop(f, e, Next(f, e, p), 0) else p;
    } else if HeaderAt(f, e, p) {
      NextHop(f, e, Next(f, e, p), n - 1);
    }
  }

  /** One turn that goes on is one step of the walk. */
  lemma {:induction false} TurnHops(f: File, e: bool, t: State)
    requires t.status == Running && Step(f, e, t).status == Running
    ensures HeaderAt(f, e, t.c.pos) && Step(f, e, t).c.pos == Next(f, e, t.c.pos)
  {
    TurnLands(f, e, t);
    SpotDecides(f, e, t.c);
  }

  /** As long as the loop runs, its turns start at the headers of that walk. */
  lemma {:induction false} TurnsHop(f: File, e: bool, s: State, n: nat)
    requires Turns(f, e, s, n).status == Running
    ensures Turns(f, e, s, n).c.pos == Hop(f, e, s.c.pos, n)
    decreases n
  {
    if n != 0 {
      var t := TurnBefore(f, e, s, n);
      TurnHops(f, e, t);
      TurnsHop(f, e, s, n - 1);
      NextHop(f, e, s.c.pos, n - 1);
    }
  }

  lemma {:induction false} TurnBefore(f: File, e: bool, s: State, n: nat) returns (t: State)
    requires n != 0 && Turns(f, e, s, n).status == Running
    ensures t == Turns(f, e, s, n - 1) && t.status == Running && Turns(f, e, s, n) == Step(f, e, t)
  {
    t := Turns(f, e, s, n - 1);
    RanBefore(f, e, s, n - 1, n);
    NextTurn(f, e, s, n - 1);
  }

  /** If the walk comes to an end, so does the loop. */
  lemma {:induction false} WalkEnds(f: File, e: bool, s: State)
    requires !HeaderAt(f, e, Hop(f, e, s.c.pos, |f|))
    ensures Halts(f, e, s)
  {
    var n := |f|;
    EndsExact(f, e, s);
    if Turns(f, e, s, n + 1).status == Running {
      RanBefore(f, e, s, n, n + 1);
      NextTurn(f, e, s, n);
      TurnsHop(f, e, s, n);
      TurnHops(f, e, Turns(f, e, s, n));
    }
  }

  /** A turn that starts fresh, or the regular end. */
  ghost predicate Regular(t: State) {
    t.status == Finished || (t.status == Running && !t.c.stuck)
  }

  lemma {:induction false} FinishedAtWalkEnd(f: File, e: bool, s: State)
    requires s.status == Running && !s.c.stuck && Step(f, e, s).status == Finished
    ensures !HeaderAt(f, e, s.c.pos)
  {
    SpotDecides(f, e, s.c);
    FinishesByTag(f, e, s);
  }

  /** Only a zero tag finishes. */
  lemma {:induction false} FinishesByTag(f: File, e: bool, s: State)
    requires s.status == Running && Step(f, e, s).status == Finished
    ensures UnsignedAt(f, e, s.c) == 0
  {
    var tag := UnsignedAt(f, e, s.c);
    if tag != 0 {
      TagNeverFinishes(f, e, s.(c := AfterRead(f, s.c, 1)), tag);
    }
  }

  lemma {:induction false} TagNeverFinishes(f: File, e: bool, s: State, tag: Word)
    requires s.status == Running
    ensures AfterTag(f, e, s, tag).status != Finished
  {
    HandledNeverFinishes(f, e, s.(c := AfterRead(f, s.c, 1)), tag, Value(UnsignedAt(f, e, s.c)));
  }

  lemma {:induction false} HandledNeverFinishes(f: File, e: bool, s: State, tag: Word, len: nat)
    requires s.status == Running
    ensures Handled(f, e, s, tag, len).status != Finished
  {
    if tag == TAG_LINES {
      LineItemsNeverFinish(f, e, s.(c := AfterRead(f, s.c, 1)), ToInt(Value(UnsignedAt(f, e, s.c))), []);
    }
  }

  lemma {:induction false} LineItemsNeverFinish(f: File, e: bool, s: State, block: int, filename: Bytes)
    requires s.status == Running
    ensures AfterLineItems(f, e, s, block, filename).status != Finished
    decreases Left(f, s.c), 1
  {
    var line := Value(UnsignedAt(f, e, s.c));
    var t := s.(c := AfterRead(f, s.c, 1));
    ValueZero(0);
    if line == 0 {
      SourceNeverFinishes(f, e, t, block);
    } else if s.p.current.Some? {
      LineItemsNeverFinish(f, e, t.(p := WithLine(s.p, ToInt(line), block, filename)), block, filename);
    }
  }

  lemma {:induction false} SourceNeverFinishes(f: File, e: bool, s: State, block: int)
    requires s.status == Running
    ensures AfterSource(f, e, s, block).status != Finished
    decreases Left(f, s.c), 0
  {
    match StringAt(f, e, s.c)
    case Text(source) => LineItemsNeverFinish(f, e, s.(c := AfterString(f, e, s.c)), block, source);
    case _ =>
  }

  /** The turn that finishes a regular run starts where the walk ends. */
  lemma {:induction false} LastHop(f: File, e: bool, s: State, n: nat)
    requires forall i: nat :: Regular(Turns(f, e, s, i))
    requires s.status == Running && Turns(f, e, s, n + 1).status != Running
    ensures !HeaderAt(f, e, Hop(f, e, s.c.pos, n))
    decreases n
  {
    var t := Turns(f, e, s, n);
    assert Regular(t) && Regular(Turns(f, e, s, n + 1));
    NextTurn(f, e, s, n);
    if t.status == Running {
      FinishedAtWalkEnd(f, e, t);
      TurnsHop(f, e, s, n);
    } else {
      assert n > 0;
      LastHop(f, e, s, n - 1);
      NextHop(f, e, s.c.pos, n - 1);
    }
  }

  /** For runs whose turns start fresh and that stop only regularly, the headers alone decide: the loop
      ends if and only if the walk from header to header, of as many steps as the file has words, has
      come to a word that is no header. */
  lemma {:induction false} EndsByHeaders(f: File, e: bool, s: State)
    requires s.status == Running && forall n: nat :: Regular(Turns(f, e, s, n))
    ensures Ends(f, e, s) <==> !HeaderAt(f, e, Hop(f, e, s.c.pos, |f|))
  {
    EndsExact(f, e, s);
    assert Regular(Turns(f, e, s, |f| + 1));
    if Ends(f, e, s) {
      LastHop(f, e, s, |f|);
    } else {
      if !HeaderAt(f, e, Hop(f, e, s.c.pos, |f|)) {
        WalkEnds(f, e, s);
      }
    }
  }

  // ---------- records that lead back to themselves

  /** Whatever a record makes the reader do: if its turn goes on and leads back to its own header, the
      loop goes on for ever. */
  lemma {:induction false} ComesBack(f: File, e: bool, s: State)
    requires s.status == Running && Step(f, e, s).status == Running
    requires Next(f, e, s.c.pos) == s.c.pos && !Step(f, e, s).c.stuck
    ensures forall n: nat :: Turns(f, e, s, n).status == Running
  {
    TurnLands(f, e, s);
    SpotDecides(f, e, s.c);
    StepKeeps(f, e, s);
    NextTurn(f, e, s, 0);
    RunsForever(f, e, s, 0, 1);
  }

  /** A line record whose file name is announced with 2^27 words that the file does not hold. */
  function LostName(version: Word, stamp: Word, block: Word, len: Word, words: Word): seq<Word> {
    [NOTE_MAGIC, version, stamp, TAG_LINES, len, block, 0, words]
  }

  lemma {:induction false} LostNameHeader(f: File, version: Word, stamp: Word, block: Word, len: Word, words: Word)
    requires f == LostName(version, stamp, block, len, words)
    ensures ByteOrder(f) == Some(false) && AfterHeader(f) == START.(pos := 3)
  {
    assert f[0] == NOTE_MAGIC;
    MagicExact(NOTE_MAGIC);
    ThreeReads(f, START);
  }

  lemma {:induction false} WordRead(f: File, c: Cursor, w: Word)
    requires !c.stuck && c.pos < |f| && f[c.pos] == w
    ensures UnsignedAt(f, false, c) == w && AfterRead(f, c, 1) == c.(pos := c.pos + 1)
  {
  }

  /** The read of that name fails, and the record ends there. */
  lemma {:induction false} LostNameHandled(f: File, version: Word, stamp: Word, block: Word, len: Word, words: Word,
                                           s: State)
    requires f == LostName(version, stamp, block, len, words) && Value(words) == MAX_REQUEST
    requires s.status == Running && s.c.pos == 5 && !s.c.stuck
    ensures var t := AfterLines(f, false, s);
      t.status == Running && t.p == s.p && t.c.pos == 8 && !t.c.stuck
  {
    var number := ToInt(Value(block));
    var c6, c7, c8 := s.c.(pos := 6), s.c.(pos := 7), s.c.(pos := 8);
    ValueZero(0);
    WordRead(f, s.c, block);
    WordRead(f, c6, 0);
    WordRead(f, c7, words);
    assert TextAt(f, c8, MAX_REQUEST) == Null && AfterText(f, c8, MAX_REQUEST).pos == 8;
    assert AfterLineItems(f, false, s.(c := c6), number, []) == AfterSource(f, false, s.(c := c7), number);
  }

  lemma {:induction false} LostNameHead(f: File, version: Word, stamp: Word, block: Word, len: Word, words: Word,
                                        c: Cursor)
    requires f == LostName(version, stamp, block, len, words) && c.pos == 3 && !c.stuck
    ensures var c4, c5 := c.(pos := 4), c.(pos := 5);
      UnsignedAt(f, false, c) == TAG_LINES && AfterRead(f, c, 1) == c4 &&
      UnsignedAt(f, false, c4) == len && AfterRead(f, c4, 1) == c5
  {
    WordRead(f, c, TAG_LINES);
    WordRead(f, c.(pos := 4), len);
  }

  lemma {:induction false} LostNameStep(f: File, version: Word, stamp: Word, block: Word, len: Word, words: Word,
                                        s: State)
    requires f == LostName(version, stamp, block, len, words)
    requires s.status == Running && s.c.pos == 3 && !s.c.stuck
    ensures Step(f, false, s) == Resumed(AfterLines(f, false, s.(c := s.c.(pos := 5))), 5, Value(len))
  {
    LostNameHead(f, version, stamp, block, len, words, s.c);
    LinesTurn(f, false, s, Value(len), s.c.(pos := 4), s.c.(pos := 5));
  }

  lemma {:induction false} LostNameTurn(f: File, version: Word, stamp: Word, block: Word, s: State)
    requires f == LostName(version, stamp, block, OfNat(MAX_WORDS - 2), OfNat(MAX_REQUEST))
    requires s.status == Running && s.c.pos == 3 && !s.c.stuck
    ensures Step(f, false, s).status == Running && Step(f, false, s).c.pos == 3 && !Step(f, false, s).c.stuck
  {
    var r := s.(c := s.c.(pos := 5));
    LostNameStep(f, version, stamp, block, OfNat(MAX_WORDS - 2), OfNat(MAX_REQUEST), s);
    LostNameAsks(f, version, stamp, block, r);
    LeadsBack(AfterLines(f, false, r), 3, OfNat(MAX_WORDS - 2));
  }

  lemma {:induction false} LinesTurn(f: File, e: bool, s: State, len: nat, c4: Cursor, c5: Cursor)
    requires s.status == Running && UnsignedAt(f, e, s.c) == TAG_LINES && AfterRead(f, s.c, 1) == c4
    requires Value(UnsignedAt(f, e, c4)) == len && AfterRead(f, c4, 1) == c5
    ensures Step(f, e, s) == Resumed(AfterLines(f, e, s.(c := c5)), c5.pos, len)
  {
  }

  lemma {:induction false} LedBack(t: State, p: nat, len: nat)
    requires t.status == Running && !t.c.stuck && p + 2 < MAX_WORDS && len == MAX_WORDS - 2
    ensures var r := Resumed(t, p + 2, len);
      r.status == Running && r.c.pos == p && !r.c.stuck
  {
  }

  lemma {:induction false} LeadsBack(t: State, p: nat, len: Word)
    requires t.status == Running && !t.c.stuck && p + 2 < MAX_WORDS && len == OfNat(MAX_WORDS - 2)
    ensures var r := Resumed(t, p + 2, Value(len));
      r.status == Running && r.c.pos == p && !r.c.stuck
  {
    ValueOfNat(MAX_WORDS - 2);
    LedBack(t, p, Value(len));
  }

  lemma {:induction false} LostNameAsks(f: File, version: Word, stamp: Word, block: Word, s: State)
    requires f == LostName(version, stamp, block, OfNat(MAX_WORDS - 2), OfNat(MAX_REQUEST))
    requires s.status == Running && s.c.pos == 5 && !s.c.stuck
    ensures var t := AfterLines(f, false, s);
      t.status == Running && t.p == s.p && t.c.pos == 8 && !t.c.stuck
  {
    ValueOfNat(MAX_REQUEST);
    LostNameHandled(f, version, stamp, block, OfNat(MAX_WORDS - 2), OfNat(MAX_REQUEST), s);
  }

  lemma {:induction false} LostNameRuns(f: File, version: Word, stamp: Word, block: Word, s: State)
    requires f == LostName(version, stamp, block, OfNat(MAX_WORDS - 2), OfNat(MAX_REQUEST))
    requires s.status == Running && s.c.pos == 3 && !s.c.stuck
    ensures forall n: nat :: Turns(f, false, s, n).status == Running
  {
    LostNameTurn(f, version, stamp, block, s);
    TurnHops(f, false, s);
    ComesBack(f, false, s);
  }

  lemma {:induction false} LostNameBegins(f: File, version: Word, stamp: Word, block: Word)
    requires f == LostName(version, stamp, block, OfNat(MAX_WORDS - 2), OfNat(MAX_REQUEST))
    ensures ByteOrder(f) == Some(false) && forall n: nat :: Turns(f, false, Begun(f), n).status == Running
  {
    LostNameHeader(f, version, stamp, block, OfNat(MAX_WORDS - 2), OfNat(MAX_REQUEST));
    LostNameRuns(f, version, stamp, block, Begun(f));
  }

  lemma {:induction false} NeverDecided(f: File, e: bool)
    requires ByteOrder(f) == Some(e) && forall n: nat :: Turns(f, e, Begun(f), n).status == Running
    ensures !Decided(f) && !Terminates(f)
  {
  }

  /** A second kind of file from which the source never returns: each turn asks for the missing name,
      ends the record, and is led back to its header. */
  lemma {:induction false} LostNameNeverReturns(f: File, version: Word, stamp: Word, block: Word)
    requires f == LostName(version, stamp, block, OfNat(MAX_WORDS - 2), OfNat(MAX_REQUEST))
    ensures !Decided(f) && !Terminates(f)
    ensures forall n: nat :: Turns(f, false, Begun(f), n).status == Running
  {
    LostNameBegins(f, version, stamp, block);
    NeverDecided(f, false);
  }

  lemma {:induction false} LostNameDigits()
    ensures OfNat(MAX_REQUEST) == 0x0800_0000
  {
    OfDigits(MAX_REQUEST, 8, 0, 0, 0);
    assert Join(8, 0, 0, 0) == 0x0800_0000;
  }

  /** One such file in numbers. */
  lemma {:induction false} SomeLostNameNeverReturns(f: File)
    requires f == [0x6763_6e6f, 0x3430_3370, 0, 0x0145_0000, 0x3fff_fffe, 7, 0, 0x0800_0000]
    ensures !Decided(f) && !Terminates(f)
  {
    LengthInDigits();
    LostNameDigits();
    LostNameNeverReturns(f, 0x3430_3370, 0, 7);
  }
}
