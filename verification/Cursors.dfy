/** Reading a gcov file through a plain cursor: what the read buffer stands for. */
module Cursors {
  import opened Words

  /** Files below 2^30 words, so that byte positions fit in 32 bits. */
  const MAX_WORDS: nat := 0x4000_0000

  const MAX_REQUEST: nat := 0x800_0000

  type File = f: seq<Word> | |f| < MAX_WORDS witness []

  /** A failed read leaves `pos` alone but is stuck there, even if the file goes on. */
  datatype Cursor = Cursor(pos: nat, stuck: bool, overread: nat)

  const START := Cursor(0, false, TWO_32 - 1)

  /** The words that a read can still deliver. */
  function Available(f: File, c: Cursor): nat {
    if c.stuck || |f| <= c.pos then 0 else |f| - c.pos
  }

  function AfterRead(f: File, c: Cursor, n: nat): Cursor {
    if n <= Available(f, c) then c.(pos := c.pos + n)
    else c.(stuck := c.pos < |f|, overread := (c.overread + n - Available(f, c)) % TWO_32)
  }

  function WordsAt(f: File, c: Cursor, n: nat): (r: Option<seq<Word>>)
    ensures r.Some? ==> |r.value| == n
  {
    if n > Available(f, c) then None
    else if n == 0 then Some([])
    else Some(f[c.pos..c.pos + n])
  }

  /** gcov_sync; a target at or beyond 2^30 words is reached modulo 2^30. */
  function AfterSync(c: Cursor, base: nat, length: nat): Cursor {
    var target := (base + length) % TWO_32;
    c.(pos := target % MAX_WORDS, stuck := c.stuck && target == c.pos)
  }

  // ---------- items

  function UnsignedAt(f: File, e: bool, c: Cursor): Word {
    match WordsAt(f, c, 1)
    case None => 0
    case Some(ws) => FromFile(ws[0], e)
  }

  function CounterAt(f: File, e: bool, c: Cursor): bv64 {
    match WordsAt(f, c, 2)
    case None => 0
    case Some(ws) => Counter(FromFile(ws[0], e), FromFile(ws[1], e))
  }

  /** A string read: NULL, a C string, or a length with which the model gives up. */
  datatype Text = Null | Text(bytes: Bytes) | Oversize

  /** Requests that fit whatever has been read before: the buffer that gcov_allocate then asks for stays
      below 2^30 words, where the 32-bit byte count of the refill would wrap. */
  predicate Small(f: File, n: nat) {
    n <= MAX_REQUEST || |f| + n <= 2 * MAX_REQUEST
  }

  /** The string of n words: NULL when there are none, or when the file does not hold so many. */
  function TextAt(f: File, c: Cursor, n: nat): Text {
    if n == 0 then Null
    else if !Small(f, n) then Oversize
    else match WordsAt(f, c, n)
         case None => Null
         case Some(ws) => Text(CString(MemoryOf(ws)))
  }

  function AfterText(f: File, c: Cursor, n: nat): (r: Cursor)
    ensures TextAt(f, c, n).Text? ==> r.pos > c.pos && r.pos <= |f| && !r.stuck
  {
    if n == 0 || !Small(f, n) then c else AfterRead(f, c, n)
  }

  function StringAt(f: File, e: bool, c: Cursor): Text {
    TextAt(f, AfterRead(f, c, 1), Value(UnsignedAt(f, e, c)))
  }

  function AfterString(f: File, e: bool, c: Cursor): (r: Cursor)
    ensures StringAt(f, e, c).Text? ==> r.pos > c.pos && r.pos <= |f| && !r.stuck
  {
    AfterText(f, AfterRead(f, c, 1), Value(UnsignedAt(f, e, c)))
  }

  /** n reads of k words each. */
  function AfterReads(f: File, c: Cursor, k: nat, n: nat): Cursor
    decreases n
  {
    if n == 0 then c else AfterReads(f, AfterRead(f, c, k), k, n - 1)
  }

  // ---------- laws of the cursor

  /** What is read where: nothing, that is 0 or NULL, after a failed read or where the file does not hold
      as many words, and the words at the position otherwise; and where the reader is then. */
  lemma {:induction false} ReadsExact(f: File, e: bool, c: Cursor, n: nat)
    requires n > 0 && Small(f, n)
    ensures var lost := c.stuck || c.pos + n > |f|;
      && AfterRead(f, c, n).pos == (if lost then c.pos else c.pos + n)
      && (AfterRead(f, c, n).stuck <==> lost && c.pos < |f|)
      && (!lost ==> AfterRead(f, c, n).overread == c.overread)
      && (lost ==> (AfterRead(f, c, n).overread - c.overread - n + Available(f, c)) % TWO_32 == 0)
      && TextAt(f, c, n) == (if lost then Null else Text(CString(MemoryOf(f[c.pos..c.pos + n]))))
      && (n == 1 ==> UnsignedAt(f, e, c) == if lost then 0 else if e then Swap(f[c.pos]) else f[c.pos])
      && (n == 2 ==> CounterAt(f, e, c) == if lost then 0
            else if e then Counter(Swap(f[c.pos]), Swap(f[c.pos + 1])) else Counter(f[c.pos], f[c.pos + 1]))
  {
  }

  /** A number and a counter have the same value in a file and in one of the other byte order. */
  lemma {:induction false} OrderInvisible(f: File, g: File, c: Cursor)
    requires !c.stuck && c.pos + 2 <= |f| == |g|
    requires g[c.pos] == Swap(f[c.pos]) && g[c.pos + 1] == Swap(f[c.pos + 1])
    ensures UnsignedAt(f, false, c) == UnsignedAt(g, true, c) && CounterAt(f, false, c) == CounterAt(g, true, c)
  {
    SwapInvolution(f[c.pos]);
    SwapInvolution(f[c.pos + 1]);
  }

  ghost predicate ValidCursor(f: File, c: Cursor) {
    && c.pos < MAX_WORDS
    && (c.stuck ==> c.pos < |f|)
    && c.overread < TWO_32
  }

  datatype Op = Read(n: nat) | Sync(base: nat, length: nat)

  function Apply(f: File, c: Cursor, op: Op): Cursor {
    match op
    case Read(n) => AfterRead(f, c, n)
    case Sync(base, length) => AfterSync(c, base, length)
  }

  function ApplyAll(f: File, c: Cursor, ops: seq<Op>): Cursor
    decreases |ops|
  {
    if ops == [] then c else ApplyAll(f, Apply(f, c, ops[0]), ops[1..])
  }

  predicate Stays(op: Op, pos: nat) {
    match op
    case Read(_) => true
    case Sync(base, length) => (base + length) % TWO_32 == pos
  }

  /** Once a read has failed, the position stays put and every non-empty read fails, through any run
      of reads and of syncs to the position where the reader stands. */
  lemma {:induction false} FailureLasts(f: File, c: Cursor, ops: seq<Op>, n: nat)
    requires ValidCursor(f, c) && Available(f, c) == 0 && n > 0
    requires forall i :: 0 <= i < |ops| ==> Stays(ops[i], c.pos)
    decreases |ops|
    ensures ApplyAll(f, c, ops).pos == c.pos && WordsAt(f, ApplyAll(f, c, ops), n) == None
  {
    if ops != [] {
      assert Stays(ops[0], c.pos);
      FailureLasts(f, Apply(f, c, ops[0]), ops[1..], n);
    }
  }

  /** A sync lands on base + length exactly when that lies below 2^30 words. */
  lemma SyncExact(c: Cursor, base: nat, length: nat)
    requires base < MAX_WORDS && length < TWO_32
    ensures AfterSync(c, base, length).pos == base + length <==> base + length < MAX_WORDS
  {
  }

  /** Such a sync can lead back: behind the two header words of a record, this length sends the reader
      to the same header again. */
  lemma SyncCanRepeat(c: Cursor)
    requires !c.stuck && c.pos + 2 < MAX_WORDS
    ensures AfterSync(c.(pos := c.pos + 2), c.pos + 2, MAX_WORDS - 2) == c
  {
  }

  /** The 32-bit test of gcov_sync is exact: it holds if and only if the target is in the buffer. */
  lemma SyncTestExact(target: nat, start: nat, length: nat)
    requires target < TWO_32 && start < MAX_WORDS && length < MAX_WORDS
    ensures (target - start) % TWO_32 <= length <==> start <= target <= start + length
  {
    if target < start {
      assert (target - start) % TWO_32 == target - start + TWO_32;
    }
  }

  /** A refill of n words asks for n words exactly when n is below 2^30: its byte count has 32 bits. */
  lemma RefillExact(n: nat)
    ensures n * 4 % TWO_32 / 4 == n <==> n < MAX_WORDS
  {
    if n >= MAX_WORDS {
      assert n * 4 % TWO_32 < TWO_32;
    }
  }

  /** The byte offset of a seek is a 32-bit number, so the stream lands on the target modulo 2^30. */
  lemma SeekLanding(target: nat)
    requires target < TWO_32
    ensures target * 4 % TWO_32 / 4 == target % MAX_WORDS
  {
    var q, r := target / MAX_WORDS, target % MAX_WORDS;
    assert target * 4 == q * TWO_32 + r * 4;
  }
}
