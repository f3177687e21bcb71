/** When the record loop ends: where each turn leads, a file on which it never ends, and the exact
    condition. */
module ReaderLoop {
  import opened Words
  import opened Tags
  import opened Cursors
  import opened Records
  import opened NoteReader

  // ---------- where a turn leads

  /** Where the reader looks for the next record: 32-bit addition, then a seek of 32 bits. */
  function Landed(end: nat): nat {
    end % TWO_32 % MAX_WORDS
  }

  /** The word behind the record at c, as its header announces it. */
  function RecordEnd(f: File, e: bool, c: Cursor): nat {
    var c1 := AfterRead(f, c, 1);
    AfterRead(f, c1, 1).pos + Value(UnsignedAt(f, e, c1))
  }

  function Landing(f: File, e: bool, c: Cursor): nat {
    Landed(RecordEnd(f, e, c))
  }

  lemma {:induction false} LandsOnEnd(end: nat)
    ensures end < MAX_WORDS <==> Landed(end) == end
  {
  }

  lemma {:induction false} NonZeroWasRead(f: File, e: bool, c: Cursor)
    requires UnsignedAt(f, e, c) != 0
    ensures c.pos < |f| && !c.stuck && AfterRead(f, c, 1) == c.(pos := c.pos + 1)
  {
  }

  lemma {:induction false} ResumesThere(t: State, base: nat, len: nat)
    requires Resumed(t, base, len).status == Running
    ensures Resumed(t, base, len).c.pos == Landed(base + len)
  {
  }

  /** A turn that goes on has read a tag, and whatever its handler did it leads to the landing. */
  lemma {:induction false} TurnLands(f: File, e: bool, s: State)
    requires s.status == Running && Step(f, e, s).status == Running
    ensures s.c.pos < |f| && !s.c.stuck && UnsignedAt(f, e, s.c) != 0
    ensures Step(f, e, s).c.pos == Landing(f, e, s.c)
  {
    NonZeroWasRead(f, e, s.c);
    var c1 := AfterRead(f, s.c, 1);
    var c2, len := AfterRead(f, c1, 1), Value(UnsignedAt(f, e, c1));
    ResumesThere(Handled(f, e, s.(c := c2), UnsignedAt(f, e, s.c), len), c2.pos, len);
  }

  lemma {:induction false} HeaderInside(f: File, e: bool, c: Cursor, len: nat)
    requires !c.stuck && c.pos + 2 <= |f| && len == Value(FromFile(f[c.pos + 1], e))
    ensures Landing(f, e, c) == Landed(c.pos + 2 + len)
  {
    assert UnsignedAt(f, e, AfterRead(f, c, 1)) == FromFile(f[c.pos + 1], e);
  }

  /** A turn that goes on leads to the announced number of words behind its header, modulo 2^32 and
      then 2^30. So it leads to the record's end exactly when that is below 2^30 words, and it advances
      exactly when that remainder is ahead. */
  lemma {:induction false} StepAdvances(f: File, e: bool, s: State, len: nat)
    requires s.status == Running && Step(f, e, s).status == Running
    requires s.c.pos + 2 <= |f| && len == Value(FromFile(f[s.c.pos + 1], e))
    ensures Step(f, e, s).c.pos == Landed(s.c.pos + 2 + len)
    ensures Step(f, e, s).c.pos == s.c.pos + 2 + len <==> s.c.pos + 2 + len < MAX_WORDS
  {
    TurnLands(f, e, s);
    HeaderInside(f, e, s.c, len);
    LandsOnEnd(s.c.pos + 2 + len);
  }

  // ---------- a file without an end

  /** A tag without a handler. */
  predicate Skipped(tag: Word) {
    && tag != 0 && tag != TAG_FUNCTION && tag != TAG_BLOCKS && tag != TAG_ARCS && tag != TAG_LINES
    && tag != TAG_OBJECT_SUMMARY && tag != TAG_PROGRAM_SUMMARY
  }

  lemma {:induction false} SkippedTurn(f: File, e: bool, s: State, tag: Word, len: nat)
    requires s.status == Running && UnsignedAt(f, e, s.c) == tag && Skipped(tag)
    requires Value(UnsignedAt(f, e, AfterRead(f, s.c, 1))) == len
    ensures var c := AfterRead(f, AfterRead(f, s.c, 1), 1); Step(f, e, s) == s.(c := AfterSync(c, c.pos, len))
  {
  }

  lemma {:induction false} HeaderReads(f: File, e: bool, c: Cursor, tag: Word, word: Word)
    requires !c.stuck && Follows(f, c.pos, [FromFile(tag, e)] + [FromFile(word, e)])
    ensures UnsignedAt(f, e, c) == tag && UnsignedAt(f, e, AfterRead(f, c, 1)) == word
    ensures AfterRead(f, AfterRead(f, c, 1), 1) == c.(pos := c.pos + 2) && c.pos + 2 < MAX_WORDS
  {
    FollowsParts(f, c.pos, [FromFile(tag, e)], [FromFile(word, e)]);
    NumberReadsBack(f, e, c, tag);
    NumberReadsBack(f, e, c.(pos := c.pos + 1), word);
  }

  lemma {:induction false} SameAgain(t: State, s: State, c: Cursor)
    requires !s.c.stuck && s.c.pos + 2 < MAX_WORDS && c == s.c.(pos := s.c.pos + 2)
    requires t == s.(c := AfterSync(c, c.pos, MAX_WORDS - 2))
    ensures t == s
  {
    SyncCanRepeat(s.c);
  }

  function Endless(version: Word, stamp: Word, tag: Word, len: Word): seq<Word> {
    [NOTE_MAGIC, version, stamp, tag, len]
  }

  lemma {:induction false} EndlessHeader(f: File, version: Word, stamp: Word, tag: Word, len: Word)
    requires f == Endless(version, stamp, tag, len)
    ensures ByteOrder(f) == Some(false) && AfterHeader(f) == START.(pos := 3)
  {
    assert f[0] == NOTE_MAGIC;
    MagicExact(NOTE_MAGIC);
    ThreeReads(f, START);
  }

  lemma {:induction false} EndlessRecord(f: File, version: Word, stamp: Word, tag: Word, len: Word, c: Cursor)
    requires f == Endless(version, stamp, tag, len) && c == START.(pos := 3)
    ensures UnsignedAt(f, false, c) == tag && UnsignedAt(f, false, AfterRead(f, c, 1)) == len
    ensures AfterRead(f, AfterRead(f, c, 1), 1) == c.(pos := c.pos + 2)
  {
    assert f[3..5] == [tag] + [len];
    HeaderReads(f, false, c, tag, len);
  }

  lemma {:induction false} EndlessLength(f: File, version: Word, stamp: Word, tag: Word, c: Cursor)
    requires f == Endless(version, stamp, tag, OfNat(MAX_WORDS - 2)) && c == START.(pos := 3)
    ensures Value(UnsignedAt(f, false, AfterRead(f, c, 1))) == MAX_WORDS - 2
  {
    EndlessRecord(f, version, stamp, tag, OfNat(MAX_WORDS - 2), c);
    ValueOfNat(MAX_WORDS - 2);
  }

  lemma {:induction false} EndlessTurn(f: File, version: Word, stamp: Word, tag: Word, s: State)
    requires f == Endless(version, stamp, tag, OfNat(MAX_WORDS - 2)) && Skipped(tag)
    requires s == State(START.(pos := 3), EMPTY, Running)
    ensures Step(f, false, s) == s
  {
    var c := AfterRead(f, AfterRead(f, s.c, 1), 1);
    EndlessRecord(f, version, stamp, tag, OfNat(MAX_WORDS - 2), s.c);
    EndlessLength(f, version, stamp, tag, s.c);
    SkippedTurn(f, false, s, tag, MAX_WORDS - 2);
    SameAgain(Step(f, false, s), s, c);
  }

  lemma {:induction false} EndlessTurns(f: File, version: Word, stamp: Word, tag: Word, s: State, n: nat)
    requires f == Endless(version, stamp, tag, OfNat(MAX_WORDS - 2)) && Skipped(tag)
    requires s == State(START.(pos := 3), EMPTY, Running)
    ensures Turns(f, false, s, n) == s
  {
    EndlessTurn(f, version, stamp, tag, s);
    SameTurns(f, s, n);
  }

  lemma {:induction false} SameTurns(f: File, s: State, n: nat)
    requires Step(f, false, s) == s
    ensures Turns(f, false, s, n) == s
    decreases n
  {
    if n != 0 {
      SameTurns(f, s, n - 1);
    }
  }

  /** On such a file of five words every turn starts at word 3 again: the source never returns from it. */
  lemma {:induction false} NeverReturns(f: File, version: Word, stamp: Word, tag: Word)
    requires f == Endless(version, stamp, tag, OfNat(MAX_WORDS - 2)) && Skipped(tag)
    ensures Begun(f).c.pos == 3 && forall n: nat :: Turns(f, false, Begun(f), n) == Begun(f)
    ensures !Terminates(f) && !Decided(f)
  {
    EndlessHeader(f, version, stamp, tag, OfNat(MAX_WORDS - 2));
    forall n: nat
      ensures Turns(f, false, Begun(f), n) == Begun(f)
    {
      EndlessTurns(f, version, stamp, tag, Begun(f), n);
    }
  }

  lemma {:induction false} LengthInDigits()
    ensures OfNat(0x3fff_fffe) == 0x3fff_fffe
  {
    OfDigits(0x3fff_fffe, 0x3f, 0xff, 0xff, 0xfe);
    assert Join(0x3f, 0xff, 0xff, 0xfe) == 0x3fff_fffe;
  }

  /** One such file in numbers. */
  lemma {:induction false} SomeFileNeverReturns(f: File)
    requires f == [0x6763_6e6f, 0x3430_3370, 0, 0x0200_0000, 0x3fff_fffe]
    ensures !Terminates(f) && !Decided(f)
    ensures forall n: nat :: Turns(f, false, Begun(f), n) == Begun(f)
  {
    LengthInDigits();
    NeverReturns(f, 0x3430_3370, 0, 0x0200_0000);
  }

  // ---------- walks along the headers

  /** A reader that stands at word p, before the tag of a record. */
  function At(p: nat): Cursor {
    Cursor(p, false, 0)
  }

  ghost predicate HeaderAt(f: File, e: bool, p: nat) {
    UnsignedAt(f, e, At(p)) != 0
  }

  /** Where the header at p leads, whatever kind of record it is. */
  function Next(f: File, e: bool, p: nat): nat {
    Landing(f, e, At(p))
  }

  lemma {:induction false} SpotDecides(f: File, e: bool, c: Cursor)
    requires !c.stuck
    ensures UnsignedAt(f, e, c) == UnsignedAt(f, e, At(c.pos)) && Landing(f, e, c) == Next(f, e, c.pos)
  {
    assert AfterRead(f, c, 1).pos == AfterRead(f, At(c.pos), 1).pos;
  }

  /** Walking from header to header, every record leads ahead. */
  ghost predicate ChainAhead(f: File, e: bool, p: nat)
    decreases if p < |f| then |f| - p else 0
  {
    HeaderAt(f, e, p) ==> p < |f| && p < Next(f, e, p) && ChainAhead(f, e, Next(f, e, p))
  }

  /** The loop halts on every file on whose walk every record leads ahead. */
  lemma {:induction false} AheadEnds(f: File, e: bool, s: State)
    requires ChainAhead(f, e, s.c.pos)
    ensures Halts(f, e, s)
    decreases Left(f, s.c)
  {
    var t := Step(f, e, s);
    if s.status != Running {
      assert Turns(f, e, s, 0).status != Running;
    } else if t.status != Running {
      assert Turns(f, e, s, 1) == Turns(f, e, t, 0) == t;
    } else {
      TurnLands(f, e, s);
      SpotDecides(f, e, s.c);
      AheadEnds(f, e, t);
      LoopTurns(f, e, s, t);
    }
  }

  /** Walking from header to header, no record claims to end at 2^30 words or beyond. */
  ghost predicate ShortChain(f: File, e: bool, p: nat)
    decreases if p < |f| then |f| - p else 0
  {
    HeaderAt(f, e, p) ==>
      var end := RecordEnd(f, e, At(p));
      p < |f| && p < end && end < MAX_WORDS && ShortChain(f, e, end)
  }

  lemma {:induction false} ShortIsAhead(f: File, e: bool, p: nat)
    requires ShortChain(f, e, p)
    ensures ChainAhead(f, e, p)
    decreases if p < |f| then |f| - p else 0
  {
    if HeaderAt(f, e, p) {
      LandsOnEnd(RecordEnd(f, e, At(p)));
      ShortIsAhead(f, e, RecordEnd(f, e, At(p)));
    }
  }

  /** The loop halts on every file none of whose records claims to end at 2^30 words or beyond; the
      source's loop ends, then, unless the model has given up on a request. */
  lemma {:induction false} ShortRecordsEnd(f: File, e: bool, s: State)
    requires ShortChain(f, e, s.c.pos)
    ensures Halts(f, e, s)
    ensures (forall n: nat :: Turns(f, e, s, n).status != Oversized) ==> Ends(f, e, s)
  {
    ShortIsAhead(f, e, s.c.pos);
    AheadEnds(f, e, s);
    EndsUnlessGivenUp(f, e, s);
  }

  /** A header always announces an end behind itself, so only a wrapped end leads back. */
  lemma {:induction false} EndIsAhead(f: File, e: bool, p: nat)
    requires HeaderAt(f, e, p)
    ensures p < |f| && p < RecordEnd(f, e, At(p))
    ensures Next(f, e, p) == Landed(RecordEnd(f, e, At(p)))
    ensures RecordEnd(f, e, At(p)) < MAX_WORDS ==> p < Next(f, e, p)
  {
    NonZeroWasRead(f, e, At(p));
    LandsOnEnd(RecordEnd(f, e, At(p)));
  }
}
