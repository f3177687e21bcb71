/** The note-file reader: a loop over records that builds one flow graph per function and hands each
    finished function to the analyser. */
module NoteReader {
  import opened Graphs
  import opened Words
  import opened Tags
  import opened Cursors
  import opened Records
  import opened ReadBuffer
  import opened Analysis

  /** What one call of Analyser.Process receives: function, flow graph, and line-to-block entries. */
  datatype Unit = Unit(function_: FunctionData, graph: Flow, lines: seq<(int, int)>)

  /** The reader's own fields, and the calls of Analyser.Process so far. */
  datatype Progress = Progress(current: Option<FunctionData>, graph: Flow, lines: seq<(int, int)>, processed: seq<Unit>)

  /** Finished is the regular end of the record loop. The others are states from which the source has
      no defined way on: a NULL string where a name is needed, lines or the end of the file without a
      function. With Oversized the model gives up on a string request; it says nothing about the source. */
  datatype Status = Running | Finished | NullName | NoFunction | Oversized

  datatype State = State(c: Cursor, p: Progress, status: Status)

  // ---------- the handlers on the plain cursor

  function Flush(p: Progress): seq<Unit> {
    if p.current.Some? then p.processed + [Unit(p.current.value, p.graph, p.lines)] else p.processed
  }

  function AfterFunction(f: File, e: bool, s: State, len: nat): State {
    var c2 := AfterRead(f, AfterRead(f, s.c, 1), 1);
    if c2.pos - s.c.pos >= len then s.(c := c2)
    else AfterNames(f, e, c2, s.p.(processed := Flush(s.p)))
  }

  /** Name, source file and line number of a function, whose graph starts empty. */
  function AfterNames(f: File, e: bool, c: Cursor, p: Progress): State {
    var c1 := AfterString(f, e, c);
    match StringAt(f, e, c)
    case Null => State(c1, p, NullName)
    case Oversize => State(c1, p, Oversized)
    case Text(name) => AfterFilename(f, e, c1, p, name)
  }

  function AfterFilename(f: File, e: bool, c: Cursor, p: Progress, name: Bytes): State {
    var c1 := AfterString(f, e, c);
    match StringAt(f, e, c)
    case Null => State(c1, p, NullName)
    case Oversize => State(c1, p, Oversized)
    case Text(filename) =>
      State(AfterRead(f, c1, 1), Progress(Some(FunctionData(name, filename, 0)), [], [], p.processed), Running)
  }

  /** Of a record of at most as many words as the file still holds of its first two, nothing is kept; any
      longer one, also where the file ends in front of it, hands over the function before it, and without
      a word to read it then lacks a name. */
  lemma {:induction false} NamesWanted(f: File, e: bool, s: State, len: nat)
    ensures var t, held := AfterFunction(f, e, s, len), if Available(f, s.c) < 2 then Available(f, s.c) else 2;
      && (len <= held ==> t.p == s.p && t.status == s.status)
      && (len > held ==> t.p.processed == Flush(s.p))
      && (len > held && Available(f, s.c) <= 2 ==> t.status == NullName)
  {
    var c2 := AfterRead(f, AfterRead(f, s.c, 1), 1);
    if Available(f, s.c) <= 2 {
      assert Available(f, c2) == 0;
      assert UnsignedAt(f, e, c2) == 0;
      ValueZero(0);
    }
  }

  /** n pairs of reads of one word. */
  function AfterPairs(f: File, c: Cursor, n: nat): Cursor
    decreases n
  {
    if n == 0 then c else AfterPairs(f, AfterRead(f, AfterRead(f, c, 1), 1), n - 1)
  }

  /** The number of arcs in a record of `len` words; unsigned, so an empty record counts as a full one. */
  function ArcsNum(len: nat): nat {
    (len - 1) % TWO_32 / 2
  }

  /** Half the words behind the first; a record that announces no words counts 2^31 - 1 arcs. */
  lemma ArcsNumExact(len: nat)
    requires len < TWO_32
    ensures len > 0 ==> 2 * ArcsNum(len) <= len - 1 <= 2 * ArcsNum(len) + 1
    ensures ArcsNum(0) == 0x7fff_ffff
  {
  }

  function GraphWithArcs(f: File, e: bool, c: Cursor, g: Flow, block: nat, n: nat): Flow
    decreases n
  {
    if n == 0 then g
    else
      var c2 := AfterRead(f, AfterRead(f, c, 1), 1);
      GraphWithArcs(f, e, c2, WithEdge(g, block, Value(UnsignedAt(f, e, c))), block, n - 1)
  }

  lemma {:induction false} ArcsUnfold(f: File, e: bool, c: Cursor, g: Flow, block: nat, n: nat)
    requires n != 0
    ensures var c2 := AfterRead(f, AfterRead(f, c, 1), 1);
      AfterPairs(f, c, n) == AfterPairs(f, c2, n - 1) &&
      GraphWithArcs(f, e, c, g, block, n)
        == GraphWithArcs(f, e, c2, WithEdge(g, block, Value(UnsignedAt(f, e, c))), block, n - 1)
  {
  }

  function AfterArcs(f: File, e: bool, s: State, len: nat): State {
    var block := Value(UnsignedAt(f, e, s.c));
    var c := AfterRead(f, s.c, 1);
    s.(c := AfterPairs(f, c, ArcsNum(len)),
       p := s.p.(graph := GraphWithArcs(f, e, c, s.p.graph, block, ArcsNum(len))))
  }

  /** One line number: it counts for the block when the current file is the function's own, and the
      first one of all becomes the function's line. */
  function WithLine(p: Progress, line: int, block: int, filename: Bytes): Progress
    requires p.current.Some?
  {
    var fn := p.current.value;
    var q := if fn.filename == filename then p.(lines := p.lines + [(line, block)]) else p;
    if fn.line == 0 then q.(current := Some(fn.(line := line))) else q
  }

  function Left(f: File, c: Cursor): nat {
    if c.pos < |f| then |f| - c.pos else 0
  }

  function AfterLineItems(f: File, e: bool, s: State, block: int, filename: Bytes): State
    decreases Left(f, s.c), 1
  {
    var line := Value(UnsignedAt(f, e, s.c));
    var c1 := AfterRead(f, s.c, 1);
    ValueZero(0);
    if line == 0 then AfterSource(f, e, s.(c := c1), block)
    else if s.p.current == None then s.(c := c1, status := NoFunction)
    else AfterLineItems(f, e, s.(c := c1, p := WithLine(s.p, ToInt(line), block, filename)), block, filename)
  }

  /** The source file of the line numbers that follow. */
  function AfterSource(f: File, e: bool, s: State, block: int): State
    decreases Left(f, s.c), 0
  {
    var c := AfterString(f, e, s.c);
    match StringAt(f, e, s.c)
    case Null => s.(c := c)
    case Oversize => s.(c := c, status := Oversized)
    case Text(source) => AfterLineItems(f, e, s.(c := c), block, source)
  }

  function AfterLines(f: File, e: bool, s: State): State {
    var block := ToInt(Value(UnsignedAt(f, e, s.c)));
    AfterLineItems(f, e, s.(c := AfterRead(f, s.c, 1)), block, [])
  }

  function Handled(f: File, e: bool, s: State, tag: Word, len: nat): State {
    if tag == TAG_FUNCTION then AfterFunction(f, e, s, len)
    else if tag == TAG_BLOCKS then s.(c := AfterReads(f, s.c, 1, len))
    else if tag == TAG_ARCS then AfterArcs(f, e, s, len)
    else if tag == TAG_LINES then AfterLines(f, e, s)
    else if tag == TAG_OBJECT_SUMMARY then s.(c := AfterReads(f, s.c, 2, len / 2))
    else if tag == TAG_PROGRAM_SUMMARY then s.(c := AfterSummary(f, s.c))
    else s
  }

  /** What a record with that tag makes of the reader, tag by tag; no other tag has an effect. */
  lemma {:induction false} TagsDispatched(f: File, e: bool, s: State, tag: Word, len: nat)
    ensures Handled(f, e, s, 0x0100_0000, len) == AfterFunction(f, e, s, len)
    ensures Handled(f, e, s, 0x0141_0000, len) == s.(c := AfterReads(f, s.c, 1, len))
    ensures Handled(f, e, s, 0x0143_0000, len) == AfterArcs(f, e, s, len)
    ensures Handled(f, e, s, 0x0145_0000, len) == AfterLines(f, e, s)
    ensures Handled(f, e, s, 0xa100_0000, len) == s.(c := AfterReads(f, s.c, 2, len / 2))
    ensures Handled(f, e, s, 0xa300_0000, len) == s.(c := AfterSummary(f, s.c))
    ensures tag !in {0x0100_0000, 0x0141_0000, 0x0143_0000, 0x0145_0000, 0xa100_0000, 0xa300_0000} ==>
      Handled(f, e, s, tag, len) == s
  {
  }

  /** The end of a turn: the next record starts where this one's length says. */
  function Resumed(t: State, base: nat, len: nat): State {
    if t.status != Running then t else t.(c := AfterSync(t.c, base, len))
  }

  /** The rest of a record whose tag has been read. */
  function AfterTag(f: File, e: bool, s: State, tag: Word): State {
    var len := Value(UnsignedAt(f, e, s.c));
    var c := AfterRead(f, s.c, 1);
    Resumed(Handled(f, e, s.(c := c), tag, len), c.pos, len)
  }

  /** One turn of the record loop. */
  function Step(f: File, e: bool, s: State): State {
    var tag := UnsignedAt(f, e, s.c);
    var t := s.(c := AfterRead(f, s.c, 1));
    if tag == 0 then t.(status := Finished) else AfterTag(f, e, t, tag)
  }

  // ---------- the record loop

  /** At most n turns of the record loop; after its end nothing changes any more. */
  function Turns(f: File, e: bool, s: State, n: nat): State
    decreases n
  {
    if n == 0 || s.status != Running then s else Turns(f, e, Step(f, e, s), n - 1)
  }

  ghost predicate Halts(f: File, e: bool, s: State) {
    exists n: nat :: Turns(f, e, s, n).status != Running
  }

  /** The record loop, where it does not go on for ever. */
  ghost function Loop(f: File, e: bool, s: State): State
    requires Halts(f, e, s)
  {
    var n: nat :| Turns(f, e, s, n).status != Running;
    Turns(f, e, s, n)
  }

  /** The source's loop ends: the model halts, and not because it gives up on a request. */
  ghost predicate Ends(f: File, e: bool, s: State) {
    Halts(f, e, s) && Loop(f, e, s).status != Oversized
  }

  lemma {:induction false} NextTurn(f: File, e: bool, s: State, n: nat)
    ensures var t := Turns(f, e, s, n);
      Turns(f, e, s, n + 1) == if t.status != Running then t else Step(f, e, t)
    decreases n
  {
    if n == 0 {
      assert Turns(f, e, s, 1) == if s.status != Running then s else Turns(f, e, Step(f, e, s), 0);
    } else if s.status == Running {
      NextTurn(f, e, Step(f, e, s), n - 1);
    }
  }

  lemma {:induction false} TurnsAgree(f: File, e: bool, s: State, n: nat, m: nat)
    requires Turns(f, e, s, n).status != Running && Turns(f, e, s, m).status != Running
    ensures Turns(f, e, s, n) == Turns(f, e, s, m)
    decreases n
  {
    if s.status == Running {
      TurnsAgree(f, e, Step(f, e, s), n - 1, m - 1);
    }
  }

  lemma LoopIs(f: File, e: bool, s: State, n: nat)
    requires Turns(f, e, s, n).status != Running
    ensures Halts(f, e, s) && Loop(f, e, s) == Turns(f, e, s, n)
  {
    var m: nat :| Turns(f, e, s, m).status != Running && Loop(f, e, s) == Turns(f, e, s, m);
    TurnsAgree(f, e, s, n, m);
  }

  /** The source's loop ends exactly when the model's does and at no turn gives up on a request. */
  lemma {:induction false} EndsUnlessGivenUp(f: File, e: bool, s: State)
    ensures Ends(f, e, s) <==> Halts(f, e, s) && forall n: nat :: Turns(f, e, s, n).status != Oversized
  {
    if Halts(f, e, s) {
      var m: nat :| Turns(f, e, s, m).status != Running;
      LoopIs(f, e, s, m);
      forall n: nat | Turns(f, e, s, n).status != Running
        ensures Turns(f, e, s, n) == Loop(f, e, s)
      {
        LoopIs(f, e, s, n);
      }
    }
  }

  /** The loop from a state is the loop after one turn. */
  lemma {:induction false} LoopTurns(f: File, e: bool, s: State, t: State)
    requires s.status == Running && Step(f, e, s) == t
    ensures Halts(f, e, s) <==> Halts(f, e, t)
    ensures Halts(f, e, t) ==> Loop(f, e, s) == Loop(f, e, t)
  {
    if Halts(f, e, t) {
      var n: nat :| Turns(f, e, t, n).status != Running;
      assert Turns(f, e, s, n + 1) == Turns(f, e, t, n);
      LoopIs(f, e, s, n + 1);
      LoopIs(f, e, t, n);
    }
    if Halts(f, e, s) {
      var n: nat :| Turns(f, e, s, n).status != Running;
      assert n > 0 && Turns(f, e, t, n - 1) == Turns(f, e, s, n);
    }
  }

  datatype Outcome = NotGcov | Parsed(final: State)

  const EMPTY := Progress(None, [], [], [])

  function ByteOrder(f: File): Option<bool> {
    OrderOf(UnsignedAt(f, false, START))
  }

  /** Whether the numbers of a file with this magic must be swapped, if it is a magic at all. */
  function OrderOf(magic: Word): Option<bool> {
    if CheckMagic(magic, DATA_MAGIC) != Mismatch then Some(CheckMagic(magic, DATA_MAGIC) == OtherOrder)
    else if CheckMagic(magic, NOTE_MAGIC) != Mismatch then Some(CheckMagic(magic, NOTE_MAGIC) == OtherOrder)
    else None
  }

  /** "gcda" and "gcno", as numbers in one byte order and in the other. */
  predicate Magics(w: Word) {
    w == 0x6763_6461 || w == 0x6763_6e6f || w == 0x6164_6367 || w == 0x6f6e_6367
  }

  /** Exactly the files that begin with one of these four words are gcov files; the numbers of a file
      must be swapped exactly when its first word is one of the last two. */
  lemma {:induction false} OrderExact(f: File)
    ensures ByteOrder(f).Some? <==> f != [] && Magics(f[0])
    ensures ByteOrder(f) == Some(false) <==> f != [] && (f[0] == 0x6763_6461 || f[0] == 0x6763_6e6f)
    ensures ByteOrder(f) == Some(true) <==> f != [] && (f[0] == 0x6164_6367 || f[0] == 0x6f6e_6367)
  {
    assert UnsignedAt(f, false, START) == if f == [] then 0 else f[0];
    OrderOfExact(UnsignedAt(f, false, START));
  }

  lemma {:induction false} OrderOfExact(w: Word)
    ensures OrderOf(w).Some? <==> Magics(w)
    ensures OrderOf(w) == Some(false) <==> w == 0x6763_6461 || w == 0x6763_6e6f
    ensures OrderOf(w) == Some(true) <==> w == 0x6164_6367 || w == 0x6f6e_6367
  {
    MagicExact(w);
    assert Swap(NOTE_MAGIC) == 0x6f6e_6367 && Swap(DATA_MAGIC) == 0x6164_6367;
  }

  function AfterHeader(f: File): Cursor {
    AfterReads(f, START, 1, 3)
  }

  /** The last function is processed after the loop; there must be one. */
  function Closed(s: State): State {
    if s.status != Finished then s
    else if s.p.current == None then s.(status := NoFunction)
    else s.(p := s.p.(processed := Flush(s.p)))
  }

  /** The reader's state when the record loop begins. */
  function Begun(f: File): State {
    State(AfterHeader(f), EMPTY, Running)
  }

  /** The file is not a gcov file, or the record loop does not go on for ever on it. */
  ghost predicate Decided(f: File) {
    ByteOrder(f).Some? ==> Halts(f, ByteOrder(f).value, Begun(f))
  }

  /** The file is not a gcov file, or the source's record loop ends on it. */
  ghost predicate Terminates(f: File) {
    ByteOrder(f).Some? ==> Ends(f, ByteOrder(f).value, Begun(f))
  }

  ghost function Opened(f: File): Outcome
    requires Decided(f)
  {
    match ByteOrder(f)
    case None => NotGcov
    case Some(e) => Parsed(Closed(Loop(f, e, Begun(f))))
  }

  // ---------- the reader

  class GcovReader {
    const io: GcovVar
    var current: Option<FunctionData>
    const graph: FlowGraph
    var lines: seq<(int, int)>
    var processed: seq<Unit>

    ghost function Now(status: Status): State
      reads this, io, graph
    {
      State(io.View(), Progress(current, graph.adj, lines, processed), status)
    }

    constructor (stream: GcovVar)
      ensures io == stream && Now(Running).p == EMPTY && fresh(graph)
    {
      io := stream;
      graph := new FlowGraph();
      current, lines, processed := None, [], [];
    }

    /** analyser.process(*this), on record. */
    method Process()
      requires current.Some?
      modifies this`processed
      ensures processed == Flush(old(Now(Running)).p)
    {
      processed := processed + [Unit(current.value, graph.adj, lines)];
    }

    method TagFunction(len: nat) returns (status: Status)
      requires io.Valid()
      modifies this, graph, io, io.buffer
      ensures io.Valid() && (io.buffer == old(io.buffer) || fresh(io.buffer)) && io.endian == old(io.endian)
      ensures Now(status) == AfterFunction(io.file, io.endian, old(Now(Running)), len)
    {
      var pos := io.Position();
      var _ := io.ReadUnsigned();
      var _ := io.ReadUnsigned();
      status := Running;
      if io.Position() - pos < len {
        status := NextFunction();
      }
    }

    /** Hand over the function read before, if any, and read the next one. */
    method NextFunction() returns (status: Status)
      requires io.Valid()
      modifies this, graph, io, io.buffer
      ensures io.Valid() && (io.buffer == old(io.buffer) || fresh(io.buffer)) && io.endian == old(io.endian)
      ensures Now(status) ==
        AfterNames(io.file, io.endian, old(io.View()), old(Now(Running).p.(processed := Flush(Now(Running).p))))
    {
      if current.Some? {
        Process();
      }
      status := ReadFunction();
    }

    /** The named part of a function record. */
    method ReadFunction() returns (status: Status)
      requires io.Valid()
      modifies this`current, this`lines, graph, io, io.buffer
      ensures io.Valid() && (io.buffer == old(io.buffer) || fresh(io.buffer)) && io.endian == old(io.endian)
      ensures Now(status) == AfterNames(io.file, io.endian, old(io.View()), old(Now(Running)).p)
    {
      var name := io.ReadString();
      match name {
        case Null => status := NullName;
        case Oversize => status := Oversized;
        case Text(n) => status := ReadFilename(n);
      }
    }

    method ReadFilename(name: Bytes) returns (status: Status)
      requires io.Valid()
      modifies this`current, this`lines, graph, io, io.buffer
      ensures io.Valid() && (io.buffer == old(io.buffer) || fresh(io.buffer)) && io.endian == old(io.endian)
      ensures Now(status) == AfterFilename(io.file, io.endian, old(io.View()), old(Now(Running)).p, name)
    {
      var filename := io.ReadString();
      match filename {
        case Null => status := NullName;
        case Oversize => status := Oversized;
        case Text(fn) =>
          StartFunction(name, fn);
          status := Running;
      }
    }

    /** A fresh function; its line number in the record is read but not kept. */
    method StartFunction(name: Bytes, filename: Bytes)
      requires io.Valid()
      modifies this`current, this`lines, graph, io, io.buffer
      ensures io.Valid() && (io.buffer == old(io.buffer) || fresh(io.buffer)) && io.endian == old(io.endian)
      ensures io.View() == AfterRead(io.file, old(io.View()), 1)
      ensures current == Some(FunctionData(name, filename, 0)) && graph.adj == [] && lines == []
    {
      current := Some(FunctionData(name, filename, 0));
      graph.Clear();
      lines := [];
      var _ := io.ReadUnsigned();
    }

    method TagBlocks(len: nat)
      requires io.Valid()
      modifies io, io.buffer
      ensures io.Valid() && (io.buffer == old(io.buffer) || fresh(io.buffer)) && io.endian == old(io.endian)
      ensures io.View() == AfterReads(io.file, old(io.View()), 1, len)
    {
      var ix := 0;
      while ix != len
        invariant ix <= len
        invariant io.Valid() && (io.buffer == old(io.buffer) || fresh(io.buffer)) && io.endian == old(io.endian)
        invariant AfterReads(io.file, io.View(), 1, len - ix) == AfterReads(io.file, old(io.View()), 1, len)
      {
        var _ := io.ReadUnsigned();
        ix := ix + 1;
      }
    }

    method TagCounters(len: nat)
      requires io.Valid()
      modifies io, io.buffer
      ensures io.Valid() && (io.buffer == old(io.buffer) || fresh(io.buffer)) && io.endian == old(io.endian)
      ensures io.View() == AfterReads(io.file, old(io.View()), 2, len / 2)
    {
      var counts := len / 2;
      var ix := 0;
      while ix != counts
        invariant ix <= counts
        invariant io.Valid() && (io.buffer == old(io.buffer) || fresh(io.buffer)) && io.endian == old(io.endian)
        invariant AfterReads(io.file, io.View(), 2, counts - ix) == AfterReads(io.file, old(io.View()), 2, counts)
      {
        var _ := io.ReadCounter();
        ix := ix + 1;
      }
    }

    method TagSummary()
      requires io.Valid()
      modifies io, io.buffer
      ensures io.Valid() && (io.buffer == old(io.buffer) || fresh(io.buffer)) && io.endian == old(io.endian)
      ensures io.View() == AfterSummary(io.file, old(io.View()))
    {
      var _ := io.ReadSummary();
    }

    method TagArcs(len: nat)
      requires io.Valid()
      modifies graph, io, io.buffer
      ensures io.Valid() && (io.buffer == old(io.buffer) || fresh(io.buffer)) && io.endian == old(io.endian)
      ensures Now(Running) == AfterArcs(io.file, io.endian, old(Now(Running)), len)
    {
      var word := io.ReadUnsigned();
      ReadArcs(Value(word), ArcsNum(len));
    }

    method ReadArcs(block: nat, arcs: nat)
      requires io.Valid()
      modifies graph, io, io.buffer
      ensures io.Valid() && (io.buffer == old(io.buffer) || fresh(io.buffer)) && io.endian == old(io.endian)
      ensures io.View() == AfterPairs(io.file, old(io.View()), arcs)
      ensures graph.adj == GraphWithArcs(io.file, io.endian, old(io.View()), old(graph.adj), block, arcs)
    {
      ghost var end := AfterPairs(io.file, io.View(), arcs);
      ghost var all := GraphWithArcs(io.file, io.endian, io.View(), graph.adj, block, arcs);
      var ix := 0;
      while ix != arcs
        invariant ix <= arcs
        invariant io.Valid() && (io.buffer == old(io.buffer) || fresh(io.buffer)) && io.endian == old(io.endian)
        invariant AfterPairs(io.file, io.View(), arcs - ix) == end
        invariant GraphWithArcs(io.file, io.endian, io.View(), graph.adj, block, arcs - ix) == all
      {
        ArcsUnfold(io.file, io.endian, io.View(), graph.adj, block, arcs - ix);
        ReadArc(block);
        ix := ix + 1;
      }
    }

    /** One arc: the destination block, and flags that are not kept. */
    method ReadArc(block: nat)
      requires io.Valid()
      modifies graph, io, io.buffer
      ensures io.Valid() && (io.buffer == old(io.buffer) || fresh(io.buffer)) && io.endian == old(io.endian)
      ensures io.View() == AfterRead(io.file, AfterRead(io.file, old(io.View()), 1), 1)
      ensures graph.adj == WithEdge(old(graph.adj), block, Value(UnsignedAt(io.file, io.endian, old(io.View()))))
    {
      var dst := io.ReadUnsigned();
      var flags := io.ReadUnsigned();
      graph.AddEdge(block, Value(dst));
    }

    method TagLines() returns (status: Status)
      requires io.Valid()
      modifies this`current, this`lines, io, io.buffer
      ensures io.Valid() && (io.buffer == old(io.buffer) || fresh(io.buffer)) && io.endian == old(io.endian)
      ensures Now(status) == AfterLines(io.file, io.endian, old(Now(Running)))
    {
      var word := io.ReadUnsigned();
      var block := ToInt(Value(word));
      var filename: Bytes := [];
      var more := true;
      status := Running;
      ghost var s := Now(Running);
      while more
        invariant io.Valid() && (io.buffer == old(io.buffer) || fresh(io.buffer)) && io.endian == old(io.endian)
        invariant if more
          then status == Running && AfterLineItems(io.file, io.endian, Now(status), block, filename)
            == AfterLineItems(io.file, io.endian, s, block, [])
          else Now(status) == AfterLineItems(io.file, io.endian, s, block, [])
        decreases more, Left(io.file, io.View())
      {
        status, more, filename := ReadLineItem(block, filename);
      }
    }

    /** One item of a line record: a line number, a change of source file, or the end. */
    method ReadLineItem(block: int, filename: Bytes) returns (status: Status, more: bool, source: Bytes)
      requires io.Valid()
      modifies this`current, this`lines, io, io.buffer
      ensures io.Valid() && (io.buffer == old(io.buffer) || fresh(io.buffer)) && io.endian == old(io.endian)
      ensures more ==> status == Running && Left(io.file, io.View()) < old(Left(io.file, io.View()))
      ensures old(AfterLineItems(io.file, io.endian, Now(Running), block, filename)) ==
        if more then AfterLineItems(io.file, io.endian, Now(Running), block, source) else Now(status)
    {
      source := filename;
      var line := io.ReadUnsigned();
      if Value(line) == 0 {
        status, more, source := ReadSource(block, filename);
      } else {
        status := ReadLine(ToInt(Value(line)), block, filename);
        more := status == Running;
      }
    }

    /** A line number belongs to the current function; there must be one. */
    method ReadLine(line: int, block: int, filename: Bytes) returns (status: Status)
      modifies this`current, this`lines
      ensures status == if old(current) == None then NoFunction else Running
      ensures Now(Running).p ==
        if old(current) == None then old(Now(Running)).p else WithLine(old(Now(Running)).p, line, block, filename)
    {
      if current == None {
        return NoFunction;
      }
      InsertLine(line, block, filename);
      status := Running;
    }

    /** After a zero: the name of the next source file, or nothing more. */
    method ReadSource(block: int, filename: Bytes) returns (status: Status, more: bool, source: Bytes)
      requires io.Valid()
      modifies io, io.buffer
      ensures io.Valid() && (io.buffer == old(io.buffer) || fresh(io.buffer)) && io.endian == old(io.endian)
      ensures more ==> status == Running && Left(io.file, io.View()) < old(Left(io.file, io.View()))
      ensures AfterSource(io.file, io.endian, old(Now(Running)), block) ==
        if more then AfterLineItems(io.file, io.endian, Now(Running), block, source) else Now(status)
    {
      var text := io.ReadString();
      status := if text.Oversize? then Oversized else Running;
      more := text.Text?;
      source := if more then text.bytes else filename;
    }

    /** One line number of the current block. */
    method InsertLine(line: int, block: int, filename: Bytes)
      requires current.Some?
      modifies this`current, this`lines
      ensures Now(Running).p == WithLine(old(Now(Running)).p, line, block, filename)
    {
      if current.value.filename == filename {
        lines := lines + [(line, block)];
      }
      if current.value.line == 0 {
        current := Some(current.value.(line := line));
      }
    }

    method Handle(tag: Word, len: nat) returns (status: Status)
      requires io.Valid()
      modifies this, graph, io, io.buffer
      ensures io.Valid() && (io.buffer == old(io.buffer) || fresh(io.buffer)) && io.endian == old(io.endian)
      ensures Now(status) == Handled(io.file, io.endian, old(Now(Running)), tag, len)
    {
      status := Running;
      if tag == TAG_FUNCTION {
        status := TagFunction(len);
      } else if tag == TAG_BLOCKS {
        TagBlocks(len);
      } else if tag == TAG_ARCS {
        TagArcs(len);
      } else if tag == TAG_LINES {
        status := TagLines();
      } else if tag == TAG_OBJECT_SUMMARY {
        TagCounters(len);
      } else if tag == TAG_PROGRAM_SUMMARY {
        TagSummary();
      }
    }

    /** The nesting depth of a tag, which is kept as the last one of that depth. The tag is rightly
        nested unless it lies deeper than the tag before it without being an immediate subtag. */
    method NoteTag(tag: Word, tags: array<Word>, depth: nat) returns (now: nat, nested: bool)
      requires tag != 0 && tags.Length == 4 && depth <= 4
      modifies tags
      ensures now == Level(tag) && 1 <= now <= 4 && tags[..] == old(tags[..])[now - 1 := tag]
      ensures nested <==> depth == 0 || now <= depth || IsSubtag(old(tags[..])[depth - 1], tag)
    {
      now := TagDepth(tag);
      nested := true;
      if depth != 0 && depth < now {
        nested := IsSubtag(tags[depth - 1], tag);
      }
      tags[now - 1] := tag;
    }

    method Resume(before: Status, base: nat, len: nat) returns (status: Status)
      requires io.Valid() && base < MAX_WORDS && len < TWO_32
      modifies io`start, io`offset, io`length, io`filePos
      ensures io.Valid() && Now(status) == Resumed(old(Now(before)), base, len)
    {
      status := before;
      if before == Running {
        io.Sync(base, len);
      }
    }

    /** One turn of the record loop. */
    method ReadRecord(tags: array<Word>, depth: nat) returns (status: Status, now: nat)
      requires io.Valid() && tags.Length == 4 && tags != io.buffer && depth <= 4
      modifies this, graph, io, io.buffer, tags
      ensures io.Valid() && (io.buffer == old(io.buffer) || fresh(io.buffer)) && io.endian == old(io.endian)
      ensures Now(status) == Step(io.file, io.endian, old(Now(Running))) && now <= 4
    {
      var tag := io.ReadUnsigned();
      if tag == 0 {
        return Finished, depth;
      }
      var nested;
      now, nested := NoteTag(tag, tags, depth);
      status := ReadTagged(tag);
    }

    method ReadTagged(tag: Word) returns (status: Status)
      requires io.Valid()
      modifies this, graph, io, io.buffer
      ensures io.Valid() && (io.buffer == old(io.buffer) || fresh(io.buffer)) && io.endian == old(io.endian)
      ensures Now(status) == AfterTag(io.file, io.endian, old(Now(Running)), tag)
    {
      var word := io.ReadUnsigned();
      status := HandleRecord(tag, Value(word));
    }

    /** Handle a record whose header has been read, then go to its end. */
    method HandleRecord(tag: Word, len: nat) returns (status: Status)
      requires io.Valid() && len < TWO_32
      modifies this, graph, io, io.buffer
      ensures io.Valid() && (io.buffer == old(io.buffer) || fresh(io.buffer)) && io.endian == old(io.endian)
      ensures Now(status) == old(Resumed(Handled(io.file, io.endian, Now(Running), tag, len), io.View().pos, len))
    {
      var base := io.Position();
      ghost var s := Now(Running);
      status := Handle(tag, len);
      ghost var t := Now(status);
      assert t == Handled(io.file, io.endian, s, tag, len);
      status := Resume(status, base, len);
      assert Now(status) == Resumed(t, base, len);
    }

    /** Magic, version and stamp; the magic tells the byte order. */
    method ReadHeader() returns (known: bool)
      requires io.Valid() && io.View() == START && !io.endian
      modifies io, io.buffer
      ensures io.Valid() && (io.buffer == old(io.buffer) || fresh(io.buffer))
      ensures known <==> ByteOrder(io.file).Some?
      ensures known <==> io.file != [] && Magics(io.file[0])
      ensures known ==> io.endian == ByteOrder(io.file).value && io.View() == AfterHeader(io.file)
      ensures known ==> (io.endian <==> io.file[0] == 0x6164_6367 || io.file[0] == 0x6f6e_6367)
    {
      OrderExact(io.file);
      ThreeReads(io.file, START);
      var magic := io.ReadUnsigned();
      known := Recognise(magic);
      if known {
        var version := io.ReadUnsigned();
        var stamp := io.ReadUnsigned();
      }
    }

    method Recognise(magic: Word) returns (known: bool)
      requires io.Valid() && !io.endian
      modifies io`endian
      ensures io.Valid() && (known <==> OrderOf(magic).Some?)
      ensures known ==> io.endian == OrderOf(magic).value
    {
      var order := io.CheckMagicWord(magic, DATA_MAGIC);
      if order == Mismatch {
        order := io.CheckMagicWord(magic, NOTE_MAGIC);
      }
      known := order != Mismatch;
    }

    /** The record loop, on every file on which it ends. */
    method ReadRecords() returns (status: Status)
      requires io.Valid() && Halts(io.file, io.endian, Now(Running))
      modifies this, graph, io, io.buffer
      ensures io.endian == old(io.endian)
      ensures Now(status) == old(Loop(io.file, io.endian, Now(Running)))
    {
      var tags := new Word[4];
      var depth := 0;
      status := Running;
      ghost var s := Now(Running);
      ghost var left: nat :| Turns(io.file, io.endian, s, left).status != Running;
      LoopIs(io.file, io.endian, s, left);
      ghost var final := Turns(io.file, io.endian, s, left);
      while status == Running
        invariant io.Valid() && (io.buffer == old(io.buffer) || fresh(io.buffer)) && io.endian == old(io.endian)
        invariant fresh(tags) && tags != io.buffer && depth <= 4
        invariant Turns(io.file, io.endian, Now(status), left) == final && final.status != Running
        decreases left
      {
        status, depth := ReadRecord(tags, depth);
        left := left - 1;
      }
    }

    /** Read a whole file. The result is None when it is not a gcov file. */
    method Open() returns (result: Option<Status>)
      requires io.Valid() && io.View() == START && !io.endian && Now(Running).p == EMPTY
      requires Decided(io.file)
      modifies this, graph, io, io.buffer
      ensures result == None <==> io.file == [] || !Magics(io.file[0])
      ensures match Opened(io.file)
        case NotGcov => result == None && processed == []
        case Parsed(s) => result == Some(s.status) && processed == s.p.processed
    {
      OrderExact(io.file);
      var known := ReadHeader();
      if !known {
        io.Close();
        return None;
      }
      var status := ReadRecords();
      if status == Finished {
        if current == None {
          status := NoFunction;
        } else {
          Process();
        }
      }
      io.Close();
      result := Some(status);
    }
  }

  lemma ThreeReads(f: File, c: Cursor)
    ensures AfterReads(f, c, 1, 3) == AfterRead(f, AfterRead(f, AfterRead(f, c, 1), 1), 1)
  {
    assert AfterReads(f, c, 1, 3) == AfterReads(f, AfterRead(f, c, 1), 1, 2);
  }
}
