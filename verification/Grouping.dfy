/** The streaming reader refines grouping: one processed unit per function record, in file order, made
    of the records up to the next function record. */
module Grouping {
  import opened Graphs
  import opened Words
  import opened Cursors
  import opened Analysis
  import opened NoteReader
  import opened NoteFiles

  // ---------- the records of one function

  /** The records before the next function record. */
  function Body(notes: seq<Note>): (r: seq<Note>)
    ensures |r| <= |notes| && forall i :: 0 <= i < |r| ==> !r[i].Function?
  {
    if notes == [] || notes[0].Function? then [] else [notes[0]] + Body(notes[1..])
  }

  function PairsOf(block: nat, arcs: seq<Arc>): seq<(nat, nat)> {
    if arcs == [] then [] else [(block, Value(arcs[0].dest))] + PairsOf(block, arcs[1..])
  }

  /** All arcs of the body as pairs of block numbers. */
  function AllArcs(body: seq<Note>): seq<(nat, nat)> {
    if body == [] then []
    else (if body[0].Arcs? then PairsOf(Value(body[0].block), body[0].arcs) else []) + AllArcs(body[1..])
  }

  datatype Entry = Entry(line: int, block: int, file: Bytes)

  function Listed(block: int, file: Bytes, items: seq<LineItem>): seq<Entry>
    decreases |items|
  {
    if items == [] then []
    else match items[0]
         case Line(n) => [Entry(ToInt(Value(n)), block, file)] + Listed(block, file, items[1..])
         case Source(name) => Listed(block, name, items[1..])
  }

  /** All line entries of the body with their source file, which starts out empty in every record. */
  function AllLines(body: seq<Note>): seq<Entry> {
    if body == [] then []
    else (if body[0].Lines? then Listed(ToInt(Value(body[0].block)), [], body[0].items) else []) + AllLines(body[1..])
  }

  function Matching(filename: Bytes, entries: seq<Entry>): seq<(int, int)> {
    if entries == [] then []
    else (if entries[0].file == filename then [(entries[0].line, entries[0].block)] else [])
         + Matching(filename, entries[1..])
  }

  function FirstLine(line: int, entries: seq<Entry>): int
    decreases |entries|
  {
    if line != 0 || entries == [] then line else FirstLine(entries[0].line, entries[1..])
  }

  function GraphFrom(g: Flow, arcs: seq<(nat, nat)>): Flow
    decreases |arcs|
  {
    if arcs == [] then g else GraphFrom(WithEdge(g, arcs[0].0, arcs[0].1), arcs[1..])
  }

  /** A function record together with its body. */
  function UnitOf(fn: Note, body: seq<Note>): Unit
    requires fn.Function?
  {
    Unit(FunctionData(fn.name, fn.filename, FirstLine(0, AllLines(body))),
      GraphFrom([], AllArcs(body)), Matching(fn.filename, AllLines(body)))
  }

  /** One unit per function record. */
  function UnitsOf(notes: seq<Note>): seq<Unit> {
    if notes == [] then []
    else if notes[0].Function? then [UnitOf(notes[0], Body(notes[1..]))] + UnitsOf(notes[1..])
    else UnitsOf(notes[1..])
  }

  // ---------- the edges of a unit

  /** The graph has exactly the edges of the arc records, and just enough blocks for them. */
  lemma {:induction false} GraphFromExact(g: Flow, arcs: seq<(nat, nat)>)
    ensures forall u: nat, v: nat :: HasEdge(GraphFrom(g, arcs), u, v) <==> HasEdge(g, u, v) || (u, v) in arcs
    ensures |GraphFrom(g, arcs)| >= |g|
    ensures forall i :: 0 <= i < |arcs| ==> arcs[i].0 < |GraphFrom(g, arcs)| && arcs[i].1 < |GraphFrom(g, arcs)|
    ensures |GraphFrom(g, arcs)| == |g|
      || exists i :: 0 <= i < |arcs| && |GraphFrom(g, arcs)| == Max(arcs[i].0, arcs[i].1) + 1
    decreases |arcs|
  {
    if arcs != [] {
      var h := WithEdge(g, arcs[0].0, arcs[0].1);
      WithEdgeExact(g, arcs[0].0, arcs[0].1);
      GraphFromExact(h, arcs[1..]);
    }
  }

  lemma {:induction false} InPairs(block: nat, arcs: seq<Arc>, u: nat, v: nat)
    ensures (u, v) in PairsOf(block, arcs) <==> u == block && exists j :: 0 <= j < |arcs| && Value(arcs[j].dest) == v
    decreases |arcs|
  {
    if arcs != [] {
      InPairs(block, arcs[1..], u, v);
      if (u, v) in PairsOf(block, arcs[1..]) {
        var j :| 0 <= j < |arcs[1..]| && Value(arcs[1..][j].dest) == v;
        assert Value(arcs[j + 1].dest) == v;
      }
      if u == block && exists j :: 0 <= j < |arcs| && Value(arcs[j].dest) == v {
        var j :| 0 <= j < |arcs| && Value(arcs[j].dest) == v;
        if j > 0 {
          assert arcs[1..][j - 1] == arcs[j];
        }
      }
    }
  }

  ghost predicate ArcIn(n: Note, u: nat, v: nat) {
    n.Arcs? && Value(n.block) == u && exists j :: 0 <= j < |n.arcs| && Value(n.arcs[j].dest) == v
  }

  lemma {:induction false} InAllArcs(body: seq<Note>, u: nat, v: nat)
    ensures (u, v) in AllArcs(body) <==> exists i :: 0 <= i < |body| && ArcIn(body[i], u, v)
    decreases |body|
  {
    if body != [] {
      InAllArcs(body[1..], u, v);
      if body[0].Arcs? {
        InPairs(Value(body[0].block), body[0].arcs, u, v);
      }
      if (u, v) in AllArcs(body[1..]) {
        var i :| 0 <= i < |body[1..]| && ArcIn(body[1..][i], u, v);
        assert ArcIn(body[i + 1], u, v);
      }
      if exists i :: 0 <= i < |body| && ArcIn(body[i], u, v) {
        var i :| 0 <= i < |body| && ArcIn(body[i], u, v);
        if i > 0 {
          assert ArcIn(body[1..][i - 1], u, v);
        }
      }
    }
  }

  /** A processed graph has an edge exactly where an arc record of its function has one. */
  lemma UnitEdges(fn: Note, body: seq<Note>, u: nat, v: nat)
    requires fn.Function?
    ensures HasEdge(UnitOf(fn, body).graph, u, v) <==> exists i :: 0 <= i < |body| && ArcIn(body[i], u, v)
  {
    GraphFromExact([], AllArcs(body));
    InAllArcs(body, u, v);
  }

  // ---------- the lines of a unit

  /** The int that has the same 32 bits as the word. */
  ghost predicate SameBits(i: int, w: Word) {
    -0x8000_0000 <= i < 0x8000_0000 && (i - Value(w)) % TWO_32 == 0
  }

  lemma {:induction false} SameBitsExact(i: int, w: Word)
    ensures SameBits(i, w) <==> i == ToInt(Value(w))
  {
    ToIntUnique(i, Value(w));
  }

  /** In front of the j-th item the source file is the one named last, or, before any, the first one. */
  ghost predicate SourceBefore(items: seq<LineItem>, j: nat, first: Bytes, file: Bytes)
    requires j <= |items|
  {
    || (file == first && forall k :: 0 <= k < j ==> items[k].Line?)
    || exists k :: 0 <= k < j && items[k] == Source(file) && forall l :: k < l < j ==> items[l].Line?
  }

  /** The j-th item is that line number, and stands behind that source file. */
  ghost predicate LineAt(items: seq<LineItem>, j: nat, line: int, first: Bytes, file: Bytes) {
    j < |items| && items[j].Line? && SameBits(line, items[j].n) && SourceBefore(items, j, first, file)
  }

  lemma {:induction false} LineAtLater(items: seq<LineItem>, j: nat, line: int, first: Bytes, file: Bytes)
    requires j + 1 < |items|
    ensures var start := if items[0].Source? then items[0].name else first;
      LineAt(items, j + 1, line, first, file) <==> LineAt(items[1..], j, line, start, file)
  {
    var rest := items[1..];
    if items[j + 1].Line? {
      var start := if items[0].Source? then items[0].name else first;
      assert forall k :: 0 <= k < j ==> rest[k] == items[k + 1];
      if SourceBefore(items, j + 1, first, file) {
        if k :| 0 <= k < j + 1 && items[k] == Source(file) && forall l :: k < l < j + 1 ==> items[l].Line? {
          assert k > 0 ==> rest[k - 1] == Source(file);
        }
      }
      if SourceBefore(rest, j, start, file) {
        if k :| 0 <= k < j && rest[k] == Source(file) && forall l :: k < l < j ==> rest[l].Line? {
          assert items[k + 1] == Source(file);
          assert forall l :: k + 1 < l < j + 1 ==> items[l] == rest[l - 1];
        } else {
          assert forall l :: 1 <= l < j + 1 ==> items[l] == rest[l - 1];
        }
      }
    }
  }

  lemma {:induction false} InListed(block: int, first: Bytes, items: seq<LineItem>, e: Entry)
    ensures e in Listed(block, first, items) <==>
      e.block == block && exists j: nat :: LineAt(items, j, e.line, first, e.file)
    decreases |items|
  {
    if items != [] {
      var start := if items[0].Source? then items[0].name else first;
      InListed(block, start, items[1..], e);
      forall j: nat | j + 1 < |items|
        ensures LineAt(items, j + 1, e.line, first, e.file) <==> LineAt(items[1..], j, e.line, start, e.file)
      {
        LineAtLater(items, j, e.line, first, e.file);
      }
      if items[0].Line? {
        SameBitsExact(e.line, items[0].n);
        assert LineAt(items, 0, e.line, first, e.file) <==> e.line == ToInt(Value(items[0].n)) && e.file == first;
        assert Listed(block, first, items)
          == [Entry(ToInt(Value(items[0].n)), block, first)] + Listed(block, start, items[1..]);
      }
      if j: nat :| LineAt(items[1..], j, e.line, start, e.file) {
        assert LineAt(items, j + 1, e.line, first, e.file);
      }
      if j: nat :| LineAt(items, j, e.line, first, e.file) {
        assert j > 0 ==> LineAt(items[1..], j - 1, e.line, start, e.file);
      }
    }
  }

  /** Some line record of the block names that line behind that source file. */
  ghost predicate LineIn(n: Note, line: int, block: int, file: Bytes) {
    n.Lines? && SameBits(block, n.block) && exists j: nat :: LineAt(n.items, j, line, [], file)
  }

  lemma {:induction false} InAllLines(body: seq<Note>, e: Entry)
    ensures e in AllLines(body) <==> exists i :: 0 <= i < |body| && LineIn(body[i], e.line, e.block, e.file)
    decreases |body|
  {
    if body != [] {
      InAllLines(body[1..], e);
      if body[0].Lines? {
        InListed(ToInt(Value(body[0].block)), [], body[0].items, e);
        SameBitsExact(e.block, body[0].block);
      }
      if i :| 0 <= i < |body[1..]| && LineIn(body[1..][i], e.line, e.block, e.file) {
        assert LineIn(body[i + 1], e.line, e.block, e.file);
      }
      if i :| 0 <= i < |body| && LineIn(body[i], e.line, e.block, e.file) {
        assert i > 0 ==> body[1..][i - 1] == body[i];
      }
    }
  }

  lemma {:induction false} InMatching(filename: Bytes, entries: seq<Entry>, line: int, block: int)
    ensures (line, block) in Matching(filename, entries) <==> Entry(line, block, filename) in entries
    decreases |entries|
  {
    if entries != [] {
      InMatching(filename, entries[1..], line, block);
      assert entries == [entries[0]] + entries[1..];
    }
  }

  /** A line is entered for a block exactly when a line record of the function names it for that block
      behind the function's own source file. */
  lemma {:induction false} UnitLines(fn: Note, body: seq<Note>, line: int, block: int)
    requires fn.Function?
    ensures (line, block) in UnitOf(fn, body).lines <==>
      exists i :: 0 <= i < |body| && LineIn(body[i], line, block, fn.filename)
  {
    InMatching(fn.filename, AllLines(body), line, block);
    InAllLines(body, Entry(line, block, fn.filename));
  }

  ghost predicate NamesOnly(n: Note) {
    n.Lines? ==> forall j :: 0 <= j < |n.items| ==> n.items[j].Source?
  }

  /** The first line number in the line records of the body. */
  ghost predicate FirstAt(body: seq<Note>, i: nat, j: nat) {
    && i < |body| && body[i].Lines? && j < |body[i].items| && body[i].items[j].Line?
    && (forall l :: 0 <= l < j ==> body[i].items[l].Source?)
    && forall h :: 0 <= h < i ==> NamesOnly(body[h])
  }

  lemma {:induction false} ListedFirst(block: int, file: Bytes, items: seq<LineItem>, j: nat)
    requires j < |items| && items[j].Line? && forall l :: 0 <= l < j ==> items[l].Source?
    ensures Listed(block, file, items) != [] && Listed(block, file, items)[0].line == ToInt(Value(items[j].n))
    decreases |items|
  {
    if j > 0 {
      ListedFirst(block, items[0].name, items[1..], j - 1);
    }
  }

  lemma {:induction false} ListedNone(block: int, file: Bytes, items: seq<LineItem>)
    requires forall j :: 0 <= j < |items| ==> items[j].Source?
    ensures Listed(block, file, items) == []
    decreases |items|
  {
    if items != [] {
      ListedNone(block, items[0].name, items[1..]);
    }
  }

  lemma {:induction false} AllLinesFirst(body: seq<Note>, i: nat, j: nat)
    requires FirstAt(body, i, j)
    ensures AllLines(body) != [] && AllLines(body)[0].line == ToInt(Value(body[i].items[j].n))
    decreases |body|
  {
    if i == 0 {
      ListedFirst(ToInt(Value(body[0].block)), [], body[0].items, j);
    } else {
      assert NamesOnly(body[0]);
      if body[0].Lines? {
        ListedNone(ToInt(Value(body[0].block)), [], body[0].items);
      }
      AllLinesFirst(body[1..], i - 1, j);
    }
  }

  lemma {:induction false} AllLinesNone(body: seq<Note>)
    requires forall i :: 0 <= i < |body| ==> NamesOnly(body[i])
    ensures AllLines(body) == []
    decreases |body|
  {
    if body != [] {
      assert NamesOnly(body[0]);
      if body[0].Lines? {
        ListedNone(ToInt(Value(body[0].block)), [], body[0].items);
      }
      AllLinesNone(body[1..]);
    }
  }

  /** The function's line is the first line number of its line records, of whatever source file, and 0
      without any. */
  lemma {:induction false} UnitLine(fn: Note, body: seq<Note>, i: nat, j: nat)
    requires fn.Function?
    ensures (forall h :: 0 <= h < |body| ==> NamesOnly(body[h])) ==> UnitOf(fn, body).function_.line == 0
    ensures FirstAt(body, i, j) && body[i].items[j].n != 0 ==>
      SameBits(UnitOf(fn, body).function_.line, body[i].items[j].n)
  {
    if forall h :: 0 <= h < |body| ==> NamesOnly(body[h]) {
      AllLinesNone(body);
    }
    if FirstAt(body, i, j) && body[i].items[j].n != 0 {
      var n := body[i].items[j].n;
      AllLinesFirst(body, i, j);
      assert FirstLine(0, AllLines(body)) == FirstLine(AllLines(body)[0].line, AllLines(body)[1..]);
      ValueZero(n);
      ToIntExact(Value(n));
      SameBitsExact(ToInt(Value(n)), n);
    }
  }

  // ---------- the reader computes the units

  lemma {:induction false} ArcsGraph(g: Flow, block: nat, arcs: seq<Arc>)
    ensures WithArcs(g, block, arcs) == GraphFrom(g, PairsOf(block, arcs))
    decreases |arcs|
  {
    if arcs != [] {
      ArcsGraph(WithEdge(g, block, Value(arcs[0].dest)), block, arcs[1..]);
    }
  }

  lemma {:induction false} GraphFromAppend(g: Flow, a: seq<(nat, nat)>, b: seq<(nat, nat)>)
    ensures GraphFrom(GraphFrom(g, a), b) == GraphFrom(g, a + b)
    decreases |a|
  {
    if a == [] {
      assert a + b == b;
    } else {
      assert (a + b)[1..] == a[1..] + b;
      GraphFromAppend(WithEdge(g, a[0].0, a[0].1), a[1..], b);
    }
  }

  lemma Reassociate<T>(a: seq<T>, b: seq<T>, c: seq<T>)
    ensures (a + b) + c == a + (b + c)
  {
  }

  lemma {:induction false} MatchingAppend(filename: Bytes, a: seq<Entry>, b: seq<Entry>)
    ensures Matching(filename, a + b) == Matching(filename, a) + Matching(filename, b)
    decreases |a|
  {
    if a == [] {
      assert a + b == b;
    } else {
      assert (a + b)[1..] == a[1..] + b;
      MatchingAppend(filename, a[1..], b);
      var first := if a[0].file == filename then [(a[0].line, a[0].block)] else [];
      Reassociate(first, Matching(filename, a[1..]), Matching(filename, b));
    }
  }

  lemma {:induction false} FirstLineAppend(line: int, a: seq<Entry>, b: seq<Entry>)
    ensures FirstLine(line, a + b) == FirstLine(FirstLine(line, a), b)
    decreases |a|
  {
    if a == [] {
      assert a + b == b;
    } else {
      assert (a + b)[1..] == a[1..] + b;
      FirstLineAppend(a[0].line, a[1..], b);
    }
  }

  /** The reader's fields after line entries have been taken in. */
  function Noted(p: Progress, entries: seq<Entry>): Progress
    requires p.current.Some?
  {
    var fn := p.current.value;
    p.(lines := p.lines + Matching(fn.filename, entries),
       current := Some(fn.(line := FirstLine(fn.line, entries))))
  }

  lemma NotedAppend(p: Progress, a: seq<Entry>, b: seq<Entry>)
    requires p.current.Some?
    ensures Noted(Noted(p, a), b) == Noted(p, a + b)
  {
    MatchingAppend(p.current.value.filename, a, b);
    FirstLineAppend(p.current.value.line, a, b);
  }

  lemma NotedOne(p: Progress, line: int, block: int, filename: Bytes)
    requires p.current.Some?
    ensures WithLine(p, line, block, filename) == Noted(p, [Entry(line, block, filename)])
  {
    var fn := p.current.value;
    var one := [Entry(line, block, filename)];
    assert one[1..] == [] && p.lines + [] == p.lines;
    assert FirstLine(line, []) == line;
    assert FirstLine(fn.line, one) == if fn.line != 0 then fn.line else line;
    assert Matching(fn.filename, []) == [];
    assert Matching(fn.filename, one) == if filename == fn.filename then [(line, block)] else [];
  }

  lemma NotedNone(p: Progress)
    requires p.current.Some?
    ensures Noted(p, []) == p
  {
    assert p.lines + [] == p.lines;
  }

  lemma {:induction false} LinesNoted(p: Progress, block: int, filename: Bytes, items: seq<LineItem>)
    requires p.current.Some?
    ensures WithLines(p, block, filename, items) == Noted(p, Listed(block, filename, items))
    decreases |items|
  {
    if items == [] {
      NotedNone(p);
    } else {
      match items[0]
      case Line(n) =>
        var line := ToInt(Value(n));
        NotedOne(p, line, block, filename);
        LinesNoted(WithLine(p, line, block, filename), block, filename, items[1..]);
        NotedAppend(p, [Entry(line, block, filename)], Listed(block, filename, items[1..]));
      case Source(name) =>
        LinesNoted(p, block, name, items[1..]);
    }
  }

  /** The reader's fields after the records of a body. */
  function Collected(p: Progress, body: seq<Note>): Progress
    requires p.current.Some?
  {
    Noted(p, AllLines(body)).(graph := GraphFrom(p.graph, AllArcs(body)))
  }

  lemma CollectedStep(p: Progress, body: seq<Note>)
    requires p.current.Some? && body != [] && !body[0].Function?
    ensures Applied(p, body[0]).current.Some?
    ensures Collected(Applied(p, body[0]), body[1..]) == Collected(p, body)
  {
    var n := body[0];
    if n.Arcs? {
      ArcsGraph(p.graph, Value(n.block), n.arcs);
      GraphFromAppend(p.graph, PairsOf(Value(n.block), n.arcs), AllArcs(body[1..]));
      assert AllLines(body) == AllLines(body[1..]);
    } else if n.Lines? {
      var block := ToInt(Value(n.block));
      LinesNoted(p, block, [], n.items);
      NotedAppend(p, Listed(block, [], n.items), AllLines(body[1..]));
      assert AllArcs(body) == AllArcs(body[1..]);
    } else {
      assert AllArcs(body) == AllArcs(body[1..]) && AllLines(body) == AllLines(body[1..]);
    }
  }

  lemma CollectedNone(p: Progress)
    requires p.current.Some?
    ensures Collected(p, []) == p
  {
    NotedNone(p);
  }

  /** With a function under way: its unit is completed by the coming body, then the others follow. */
  lemma {:induction false} RestGrouped(p: Progress, notes: seq<Note>)
    requires p.current.Some?
    ensures Flush(AppliedAll(p, notes)) == Flush(Collected(p, Body(notes))) + UnitsOf(notes)
    decreases |notes|
  {
    if notes == [] {
      CollectedNone(p);
    } else if notes[0].Function? {
      var unit := UnitOf(notes[0], Body(notes[1..]));
      CollectedNone(p);
      RestGrouped(Applied(p, notes[0]), notes[1..]);
      StartedUnit(p, notes[0], Body(notes[1..]));
      Reassociate(Flush(p), [unit], UnitsOf(notes[1..]));
    } else {
      var body := Body(notes);
      assert body[0] == notes[0] && body[1..] == Body(notes[1..]);
      CollectedStep(p, body);
      RestGrouped(Applied(p, notes[0]), notes[1..]);
    }
  }

  lemma StartedUnit(p: Progress, fn: Note, body: seq<Note>)
    requires fn.Function?
    ensures Flush(Collected(Applied(p, fn), body)) == Flush(p) + [UnitOf(fn, body)]
  {
    var q := Applied(p, fn);
    assert q.lines + Matching(fn.filename, AllLines(body)) == Matching(fn.filename, AllLines(body));
  }

  lemma {:induction false} AllGrouped(p: Progress, notes: seq<Note>)
    requires p.current == None && p.processed == [] && FunctionFirst(notes)
    ensures Flush(AppliedAll(p, notes)) == UnitsOf(notes)
    decreases |notes|
  {
    if notes[0].Function? {
      RestGrouped(Applied(p, notes[0]), notes[1..]);
      StartedUnit(p, notes[0], Body(notes[1..]));
    } else {
      AllGrouped(Applied(p, notes[0]), notes[1..]);
    }
  }

  /** Any well-formed file with a function record, in either byte order: the analyser receives one
      unit per function record, in file order, each made of the records up to the next one. */
  lemma {:induction false} ReaderGroups(f: File, magic: Word, version: Word, stamp: Word, notes: seq<Note>, e: bool)
    requires ValidNotes(notes) && FunctionFirst(notes)
    requires magic == NOTE_MAGIC || magic == DATA_MAGIC
    requires f == FileWords(magic, version, stamp, notes, e)
    ensures Terminates(f) && Opened(f).Parsed? && Opened(f).final.status == Finished
    ensures Opened(f).final.p.processed == UnitsOf(notes)
  {
    FileRead(f, magic, version, stamp, notes, e);
    AllGrouped(EMPTY, notes);
  }
}
