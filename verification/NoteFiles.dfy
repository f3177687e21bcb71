/** Well-formed note files: typed records, their words, and what the reader makes of them. */
module NoteFiles {
  import opened Graphs
  import opened Words
  import opened Tags
  import opened Cursors
  import opened Records
  import opened Analysis
  import opened NoteReader

  datatype Arc = Arc(dest: Word, flags: Word)

  datatype LineItem = Line(n: Word) | Source(name: Bytes)

  /** The records of a note file; Announce is a function record without names, Totals and Program are
      object and program summaries, Other any record that the reader does not handle. */
  datatype Note =
    | Function(ident: Word, checksum: Word, name: Bytes, filename: Bytes, line: Word)
    | Announce(ident: Word, checksum: Word)
    | Blocks(flags: seq<Word>)
    | Arcs(block: Word, arcs: seq<Arc>)
    | Lines(block: Word, items: seq<LineItem>)
    | Totals(words: seq<Word>)
    | Program(words: seq<Word>)
    | Other(tag: Word, words: seq<Word>)

  // ---------- layout

  function Nums(ws: seq<Word>): (r: seq<Item>)
    ensures |r| == |ws| && forall i :: 0 <= i < |r| ==> r[i] == Num(ws[i])
  {
    seq(|ws|, i requires 0 <= i < |ws| => Num(ws[i]))
  }

  function ArcItems(arcs: seq<Arc>): seq<Item> {
    if arcs == [] then [] else [Num(arcs[0].dest), Num(arcs[0].flags)] + ArcItems(arcs[1..])
  }

  function LineItems(items: seq<LineItem>): seq<Item> {
    if items == [] then [Num(0), Str(None)]
    else (match items[0]
          case Line(n) => [Num(n)]
          case Source(name) => [Num(0), Str(Some(name))]) + LineItems(items[1..])
  }

  function Layout(n: Note): Record {
    match n
    case Function(ident, checksum, name, filename, line) =>
      Record(TAG_FUNCTION, [Num(ident), Num(checksum), Str(Some(name)), Str(Some(filename)), Num(line)])
    case Announce(ident, checksum) => Record(TAG_FUNCTION, [Num(ident), Num(checksum)])
    case Blocks(flags) => Record(TAG_BLOCKS, Nums(flags))
    case Arcs(block, arcs) => Record(TAG_ARCS, [Num(block)] + ArcItems(arcs))
    case Lines(block, items) => Record(TAG_LINES, [Num(block)] + LineItems(items))
    case Totals(words) => Record(TAG_OBJECT_SUMMARY, Nums(words))
    case Program(words) => Record(TAG_PROGRAM_SUMMARY, Nums(words))
    case Other(tag, words) => Record(tag, Nums(words))
  }

  predicate HandledTag(tag: Word) {
    tag == TAG_FUNCTION || tag == TAG_BLOCKS || tag == TAG_ARCS || tag == TAG_LINES
    || tag == TAG_OBJECT_SUMMARY || tag == TAG_PROGRAM_SUMMARY
  }

  ghost predicate ValidLineItem(i: LineItem) {
    match i
    case Line(n) => n != 0
    case Source(name) => NoZero(name) && StringAlloc(|name|) < MAX_REQUEST
  }

  ghost predicate ValidNote(n: Note) {
    && ValidRecord(Layout(n))
    && (n.Lines? ==> forall i :: 0 <= i < |n.items| ==> ValidLineItem(n.items[i]))
    && (n.Program? ==> |n.words| >= 9)
    && (n.Other? ==> !HandledTag(n.tag))
  }

  ghost function NoteWords(n: Note, e: bool): seq<Word>
    requires ValidNote(n)
  {
    RecordWords(Layout(n), e)
  }

  ghost predicate ValidNotes(notes: seq<Note>) {
    forall i :: 0 <= i < |notes| ==> ValidNote(notes[i])
  }

  ghost function NotesWords(notes: seq<Note>, e: bool): seq<Word>
    requires ValidNotes(notes)
  {
    if notes == [] then [] else NoteWords(notes[0], e) + NotesWords(notes[1..], e)
  }

  /** magic, version, stamp, records. */
  ghost function FileWords(magic: Word, version: Word, stamp: Word, notes: seq<Note>, e: bool): seq<Word>
    requires ValidNotes(notes)
  {
    [FromFile(magic, e), FromFile(version, e), FromFile(stamp, e)] + NotesWords(notes, e)
  }

  // ---------- what a record means

  function WithArcs(g: Flow, block: nat, arcs: seq<Arc>): Flow
    decreases |arcs|
  {
    if arcs == [] then g else WithArcs(WithEdge(g, block, Value(arcs[0].dest)), block, arcs[1..])
  }

  /** Lines of one record: the current file starts out empty in every record. */
  function WithLines(p: Progress, block: int, filename: Bytes, items: seq<LineItem>): Progress
    requires p.current.Some?
    decreases |items|
  {
    if items == [] then p
    else match items[0]
         case Line(n) => WithLines(WithLine(p, ToInt(Value(n)), block, filename), block, filename, items[1..])
         case Source(name) => WithLines(p, block, name, items[1..])
  }

  function Applied(p: Progress, n: Note): Progress {
    match n
    case Function(_, _, name, filename, _) => Progress(Some(FunctionData(name, filename, 0)), [], [], Flush(p))
    case Arcs(block, arcs) => p.(graph := WithArcs(p.graph, Value(block), arcs))
    case Lines(block, items) =>
      if p.current.Some? then WithLines(p, ToInt(Value(block)), [], items) else p
    case _ => p
  }

  function AppliedAll(p: Progress, notes: seq<Note>): Progress
    decreases |notes|
  {
    if notes == [] then p else AppliedAll(Applied(p, notes[0]), notes[1..])
  }

  /** Line records come after the first function record. */
  ghost predicate FunctionFirst(notes: seq<Note>) {
    notes != [] && (notes[0].Function? || (!notes[0].Lines? && FunctionFirst(notes[1..])))
  }

  // ---------- reading one record

  /** What a handler leaves behind: the effect, no failure, at most the record read. */
  ghost predicate Done(s: State, t: State, p: Progress) {
    t.status == Running && t.p == p && !t.c.stuck && t.c.overread == s.c.overread
  }

  lemma {:induction false} NumsWords(ws: seq<Word>, e: bool)
    ensures ValidItems(Nums(ws)) && |ItemsWords(Nums(ws), e)| == |ws|
    decreases |ws|
  {
    if ws != [] {
      assert Nums(ws)[1..] == Nums(ws[1..]);
      NumsWords(ws[1..], e);
    }
  }

  /** n reads of k words inside the file. */
  lemma {:induction false} ReadsInside(f: File, c: Cursor, k: nat, n: nat)
    requires !c.stuck && c.pos + k * n <= |f|
    ensures AfterReads(f, c, k, n) == c.(pos := c.pos + k * n)
    decreases n
  {
    if n != 0 {
      assert k * n == k + k * (n - 1);
      ReadsInside(f, AfterRead(f, c, k), k, n - 1);
    }
  }

  lemma TotalsRead(f: File, e: bool, s: State, len: nat)
    requires s.status == Running && !s.c.stuck && s.c.pos + len <= |f|
    ensures Done(s, Handled(f, e, s, TAG_OBJECT_SUMMARY, len), s.p)
    ensures Handled(f, e, s, TAG_OBJECT_SUMMARY, len).c.pos == s.c.pos + len / 2 * 2
  {
    ReadsInside(f, s.c, 2, len / 2);
  }

  lemma ProgramRead(f: File, e: bool, s: State, len: nat)
    requires s.status == Running && !s.c.stuck && s.c.pos + 9 <= |f|
    ensures Done(s, Handled(f, e, s, TAG_PROGRAM_SUMMARY, len), s.p)
    ensures Handled(f, e, s, TAG_PROGRAM_SUMMARY, len).c.pos == s.c.pos + 9
  {
    var c1 := AfterRead(f, s.c, 1);
    ReadsInside(f, c1, 1, 2);
    ReadsInside(f, AfterReads(f, c1, 1, 2), 2, 3);
  }

  lemma BlocksRead(f: File, e: bool, s: State, n: Note, len: nat)
    requires s.status == Running && !s.c.stuck && s.c.pos + len <= |f|
    requires n.Blocks?
    ensures Done(s, Handled(f, e, s, TAG_BLOCKS, len), s.p)
    ensures Handled(f, e, s, TAG_BLOCKS, len).c.pos == s.c.pos + len
  {
    ReadsInside(f, s.c, 1, len);
  }

  /** The arcs as they are read from c on. */
  ghost predicate ArcsAhead(f: File, e: bool, c: Cursor, arcs: seq<Arc>)
    decreases |arcs|
  {
    arcs != [] ==>
      UnsignedAt(f, e, c) == arcs[0].dest && ArcsAhead(f, e, AfterRead(f, AfterRead(f, c, 1), 1), arcs[1..])
  }

  lemma {:induction false} ArcsLieAhead(f: File, e: bool, c: Cursor, arcs: seq<Arc>)
    requires !c.stuck && ValidItems(ArcItems(arcs)) && Follows(f, c.pos, ItemsWords(ArcItems(arcs), e))
    ensures ArcsAhead(f, e, c, arcs)
    decreases |arcs|
  {
    if arcs != [] {
      PairReads(f, e, c, arcs[0], ArcItems(arcs[1..]), ArcItems(arcs));
      ArcsLieAhead(f, e, c.(pos := c.pos + 2), arcs[1..]);
    }
  }

  lemma {:induction false} ArcsRead(f: File, e: bool, c: Cursor, g: Flow, block: nat, arcs: seq<Arc>)
    requires ArcsAhead(f, e, c, arcs)
    ensures GraphWithArcs(f, e, c, g, block, |arcs|) == WithArcs(g, block, arcs)
    decreases |arcs|
  {
    if arcs != [] {
      ArcsRead(f, e, AfterRead(f, AfterRead(f, c, 1), 1), WithEdge(g, block, Value(arcs[0].dest)), block, arcs[1..]);
    }
  }

  lemma {:induction false} PairsInside(f: File, c: Cursor, n: nat)
    requires !c.stuck && c.pos + 2 * n <= |f|
    ensures AfterPairs(f, c, n) == c.(pos := c.pos + 2 * n)
    decreases n
  {
    if n != 0 {
      PairsInside(f, AfterRead(f, AfterRead(f, c, 1), 1), n - 1);
    }
  }

  /** Two numbers at the head of an item list. */
  lemma PairReads(f: File, e: bool, c: Cursor, a: Arc, rest: seq<Item>, all: seq<Item>)
    requires all == [Num(a.dest), Num(a.flags)] + rest && ValidItems(all)
    requires !c.stuck && Follows(f, c.pos, ItemsWords(all, e))
    ensures ValidItems(rest) && Follows(f, c.pos + 2, ItemsWords(rest, e))
    ensures |ItemsWords(all, e)| == 2 + |ItemsWords(rest, e)|
    ensures UnsignedAt(f, e, c) == a.dest
    ensures AfterRead(f, AfterRead(f, c, 1), 1) == c.(pos := c.pos + 2)
  {
    var tail := [Num(a.flags)] + rest;
    assert all == [Num(a.dest)] + tail;
    HeadReads(f, e, c, a.dest, tail, all);
    HeadReads(f, e, c.(pos := c.pos + 1), a.flags, rest, tail);
  }

  /** One number at the head of an item list. */
  lemma {:induction false} HeadReads(f: File, e: bool, c: Cursor, n: Word, rest: seq<Item>, all: seq<Item>)
    requires all == [Num(n)] + rest && ValidItems(all)
    requires !c.stuck && Follows(f, c.pos, ItemsWords(all, e))
    ensures ValidItems(rest) && Follows(f, c.pos + 1, ItemsWords(rest, e))
    ensures |ItemsWords(all, e)| == 1 + |ItemsWords(rest, e)|
    ensures UnsignedAt(f, e, c) == n && AfterRead(f, c, 1) == c.(pos := c.pos + 1)
  {
    assert all[1..] == rest && all[0] == Num(n);
    assert forall i :: 0 <= i < |rest| ==> rest[i] == all[i + 1];
    SplitAt(f, c, c.(pos := c.pos + 1), [FromFile(n, e)], ItemsWords(rest, e), ItemsWords(all, e));
    NumberReadsBack(f, e, c, n);
  }

  /** One string at the head of an item list. */
  lemma HeadString(f: File, e: bool, c: Cursor, name: Bytes, rest: seq<Item>, all: seq<Item>) returns (d: Cursor)
    requires all == [Str(Some(name))] + rest && ValidItems(all)
    requires !c.stuck && Follows(f, c.pos, ItemsWords(all, e))
    ensures d == c.(pos := d.pos) && d.pos > c.pos
    ensures ValidItems(rest) && Follows(f, d.pos, ItemsWords(rest, e))
    ensures c.pos + |ItemsWords(all, e)| == d.pos + |ItemsWords(rest, e)|
    ensures StringAt(f, e, c) == Text(name) && AfterString(f, e, c) == d
  {
    assert all[1..] == rest && all[0] == Str(Some(name));
    assert forall i :: 0 <= i < |rest| ==> rest[i] == all[i + 1];
    assert ValidItem(all[0]);
    var w := ItemWords(all[0], e);
    d := c.(pos := c.pos + |w|);
    SplitAt(f, c, d, w, ItemsWords(rest, e), ItemsWords(all, e));
    ItemReadsBack(f, e, c, Str(Some(name)));
    TextReadsBack(f, e, c, name, StringWords(name));
  }

  lemma ValueIsZero(n: Word)
    ensures Value(n) == 0 <==> n == 0
  {
    ValueZero(n);
  }

  /** The end of a line record. */
  lemma LinesEnd(f: File, e: bool, s: State, block: int, filename: Bytes)
    requires s.status == Running && !s.c.stuck
    requires ValidItems([Num(0), Str(None)]) && Follows(f, s.c.pos, ItemsWords([Num(0), Str(None)], e))
    ensures AfterLineItems(f, e, s, block, filename) == s.(c := s.c.(pos := s.c.pos + 2))
    ensures |ItemsWords([Num(0), Str(None)], e)| == 2
  {
    var tail := [Str(None)];
    HeadReads(f, e, s.c, 0, tail, [Num(0), Str(None)]);
    ValueIsZero(0);
    assert tail[1..] == [] && ItemsWords(tail, e) == [0];
    NullReadsBack(f, e, s.c.(pos := s.c.pos + 1));
  }

  lemma {:induction false} LinesRead(f: File, e: bool, s: State, block: int, filename: Bytes, items: seq<LineItem>)
    requires s.status == Running && !s.c.stuck && s.p.current.Some?
    requires forall i :: 0 <= i < |items| ==> ValidLineItem(items[i])
    requires ValidItems(LineItems(items)) && Follows(f, s.c.pos, ItemsWords(LineItems(items), e))
    ensures Done(s, AfterLineItems(f, e, s, block, filename), WithLines(s.p, block, filename, items))
    ensures AfterLineItems(f, e, s, block, filename).c.pos == s.c.pos + |ItemsWords(LineItems(items), e)|
    decreases |items|
  {
    if items == [] {
      LinesEnd(f, e, s, block, filename);
    } else {
      var rest := LineItems(items[1..]);
      match items[0] {
        case Line(n) =>
          assert ValidLineItem(items[0]);
          HeadReads(f, e, s.c, n, rest, LineItems(items));
          ValueIsZero(n);
          var t := State(s.c.(pos := s.c.pos + 1), WithLine(s.p, ToInt(Value(n)), block, filename), Running);
          LinesRead(f, e, t, block, filename, items[1..]);
        case Source(name) =>
          var d := SourceReads(f, e, s, block, filename, name, rest, LineItems(items));
          LinesRead(f, e, s.(c := d), block, name, items[1..]);
      }
    }
  }

  lemma SourceReads(f: File, e: bool, s: State, block: int, filename: Bytes, name: Bytes, rest: seq<Item>,
                    all: seq<Item>)
    returns (d: Cursor)
    requires s.status == Running && !s.c.stuck
    requires all == [Num(0), Str(Some(name))] + rest && ValidItems(all)
    requires Follows(f, s.c.pos, ItemsWords(all, e))
    ensures d == s.c.(pos := d.pos) && ValidItems(rest) && Follows(f, d.pos, ItemsWords(rest, e))
    ensures s.c.pos + |ItemsWords(all, e)| == d.pos + |ItemsWords(rest, e)|
    ensures AfterLineItems(f, e, s, block, filename) == AfterLineItems(f, e, s.(c := d), block, name)
  {
    var tail := [Str(Some(name))] + rest;
    assert all == [Num(0)] + tail;
    HeadReads(f, e, s.c, 0, tail, all);
    ValueIsZero(0);
    d := HeadString(f, e, s.c.(pos := s.c.pos + 1), name, rest, tail);
  }

  lemma FunctionRead(f: File, e: bool, s: State, n: Note, len: nat)
    requires n.Function? && ValidItems(Layout(n).items) && len > 2
    requires s.status == Running && !s.c.stuck && Follows(f, s.c.pos, ItemsWords(Layout(n).items, e))
    ensures Done(s, AfterFunction(f, e, s, len), Applied(s.p, n))
    ensures AfterFunction(f, e, s, len).c.pos == s.c.pos + |ItemsWords(Layout(n).items, e)|
  {
    var names := [Str(Some(n.name)), Str(Some(n.filename)), Num(n.line)];
    var p := s.p.(processed := Flush(s.p));
    PairReads(f, e, s.c, Arc(n.ident, n.checksum), names, Layout(n).items);
    NamesRead(f, e, s.c.(pos := s.c.pos + 2), p, n, names);
  }

  lemma {:induction false} NamesRead(f: File, e: bool, c: Cursor, p: Progress, n: Note, names: seq<Item>)
    requires n.Function? && names == [Str(Some(n.name)), Str(Some(n.filename)), Num(n.line)]
    requires ValidItems(names) && !c.stuck && Follows(f, c.pos, ItemsWords(names, e))
    ensures var t := AfterNames(f, e, c, p);
      && t.status == Running && t.c == c.(pos := c.pos + |ItemsWords(names, e)|)
      && t.p == Progress(Some(FunctionData(n.name, n.filename, 0)), [], [], p.processed)
  {
    var rest := [Str(Some(n.filename)), Num(n.line)];
    assert names == [Str(Some(n.name))] + rest;
    var d := HeadString(f, e, c, n.name, rest, names);
    FilenameRead(f, e, d, p, n, rest);
  }

  lemma {:induction false} FilenameRead(f: File, e: bool, c: Cursor, p: Progress, n: Note, rest: seq<Item>)
    requires n.Function? && rest == [Str(Some(n.filename)), Num(n.line)]
    requires ValidItems(rest) && !c.stuck && Follows(f, c.pos, ItemsWords(rest, e))
    ensures var t := AfterFilename(f, e, c, p, n.name);
      && t.status == Running && t.c == c.(pos := c.pos + |ItemsWords(rest, e)|)
      && t.p == Progress(Some(FunctionData(n.name, n.filename, 0)), [], [], p.processed)
  {
    var last := [Num(n.line)];
    assert rest == [Str(Some(n.filename))] + last;
    var d := HeadString(f, e, c, n.filename, last, rest);
    assert last == [Num(n.line)] + [];
    HeadReads(f, e, d, n.line, [], last);
  }

  lemma AnnounceRead(f: File, e: bool, s: State, n: Note)
    requires n.Announce? && ValidItems(Layout(n).items)
    requires s.status == Running && !s.c.stuck && Follows(f, s.c.pos, ItemsWords(Layout(n).items, e))
    ensures Done(s, AfterFunction(f, e, s, 2), s.p) && AfterFunction(f, e, s, 2).c.pos == s.c.pos + 2
  {
    assert Layout(n).items == [Num(n.ident), Num(n.checksum)] + [];
    PairReads(f, e, s.c, Arc(n.ident, n.checksum), [], Layout(n).items);
  }

  lemma {:induction false} ArcItemsLength(arcs: seq<Arc>, e: bool)
    ensures ValidItems(ArcItems(arcs)) && |ItemsWords(ArcItems(arcs), e)| == 2 * |arcs|
    decreases |arcs|
  {
    if arcs != [] {
      var a, rest := arcs[0], ArcItems(arcs[1..]);
      ArcItemsLength(arcs[1..], e);
      PairLength(Num(a.dest), Num(a.flags), rest, ArcItems(arcs), e);
    }
  }

  lemma PairLength(x: Item, y: Item, rest: seq<Item>, all: seq<Item>, e: bool)
    requires x.Num? && y.Num? && all == [x, y] + rest && ValidItems(rest)
    ensures ValidItems(all) && |ItemsWords(all, e)| == 2 + |ItemsWords(rest, e)|
  {
    assert all[1..] == [y] + rest;
    assert all[1..][1..] == rest;
  }

  lemma ArcsRecordRead(f: File, e: bool, s: State, n: Note, len: nat)
    requires n.Arcs? && ValidItems(Layout(n).items) && len == 1 + 2 * |n.arcs| < TWO_32
    requires s.status == Running && !s.c.stuck && Follows(f, s.c.pos, ItemsWords(Layout(n).items, e))
    ensures Done(s, AfterArcs(f, e, s, len), Applied(s.p, n)) && AfterArcs(f, e, s, len).c.pos == s.c.pos + len
  {
    HeadReads(f, e, s.c, n.block, ArcItems(n.arcs), Layout(n).items);
    ArcsEffect(f, e, s, n.block, n.arcs, s.c.(pos := s.c.pos + 1));
  }

  lemma ArcsEffect(f: File, e: bool, s: State, block: Word, arcs: seq<Arc>, c: Cursor)
    requires UnsignedAt(f, e, s.c) == block && AfterRead(f, s.c, 1) == c && !c.stuck && 1 + 2 * |arcs| < TWO_32
    requires ValidItems(ArcItems(arcs)) && Follows(f, c.pos, ItemsWords(ArcItems(arcs), e))
    ensures AfterArcs(f, e, s, 1 + 2 * |arcs|) ==
      s.(c := c.(pos := c.pos + 2 * |arcs|), p := s.p.(graph := WithArcs(s.p.graph, Value(block), arcs)))
  {
    ArcsLieAhead(f, e, c, arcs);
    ArcsRead(f, e, c, s.p.graph, Value(block), arcs);
    ArcItemsLength(arcs, e);
    PairsInside(f, c, |arcs|);
    ArcsNumIs(|arcs|);
  }

  lemma ArcsNumIs(n: nat)
    requires 1 + 2 * n < TWO_32
    ensures ArcsNum(1 + 2 * n) == n
  {
  }

  lemma LinesRecordRead(f: File, e: bool, s: State, n: Note)
    requires n.Lines? && ValidItems(Layout(n).items) && s.p.current.Some?
    requires forall i :: 0 <= i < |n.items| ==> ValidLineItem(n.items[i])
    requires s.status == Running && !s.c.stuck && Follows(f, s.c.pos, ItemsWords(Layout(n).items, e))
    ensures Done(s, AfterLines(f, e, s), Applied(s.p, n))
    ensures AfterLines(f, e, s).c.pos == s.c.pos + |ItemsWords(Layout(n).items, e)|
  {
    HeadReads(f, e, s.c, n.block, LineItems(n.items), Layout(n).items);
    LinesRead(f, e, s.(c := s.c.(pos := s.c.pos + 1)), ToInt(Value(n.block)), [], n.items);
  }

  lemma LayoutLength(n: Note, e: bool)
    requires ValidNote(n)
    ensures var len := |ItemsWords(Layout(n).items, e)|;
      match n
      case Function(_, _, _, _, _) => len > 2
      case Announce(_, _) => len == 2
      case Blocks(flags) => len == |flags|
      case Arcs(_, arcs) => len == 1 + 2 * |arcs|
      case Totals(words) => len == |words|
      case Program(words) => len == |words|
      case _ => true
  {
    match n
    case Function(_, _, name, filename, line) =>
      var items := Layout(n).items;
      assert items[1..][1..] == [Str(Some(name)), Str(Some(filename)), Num(line)];
      assert ItemsWords(items, e)
        == ItemWords(items[0], e) + (ItemWords(items[1..][0], e) + ItemsWords(items[1..][1..], e));
    case Announce(_, _) =>
      var items := Layout(n).items;
      assert items[1..][1..] == [];
      assert ItemsWords(items, e)
        == ItemWords(items[0], e) + (ItemWords(items[1..][0], e) + ItemsWords(items[1..][1..], e));
    case Blocks(flags) => NumsWords(flags, e);
    case Arcs(_, arcs) =>
      ArcItemsLength(arcs, e);
      assert Layout(n).items[1..] == ArcItems(arcs);
    case Lines(_, _) =>
    case Totals(words) => NumsWords(words, e);
    case Program(words) => NumsWords(words, e);
    case Other(_, _) =>
  }

  /** Records of the length that their handler expects: whole counters, and the length of a summary. */
  ghost predicate WellMeasured(n: Note) {
    !n.Other? && (n.Totals? ==> |n.words| % 2 == 0) && (n.Program? ==> |n.words| == 9)
  }

  /** The handler of a record that lies whole in the file has exactly the record's effect, and if the
      record has the length that it expects, it reads to the record's end and no further. */
  lemma HandlerRead(f: File, e: bool, s: State, n: Note, len: nat)
    requires ValidNote(n) && len == |ItemsWords(Layout(n).items, e)| < TWO_32
    requires s.status == Running && !s.c.stuck && Follows(f, s.c.pos, ItemsWords(Layout(n).items, e))
    requires n.Lines? ==> s.p.current.Some?
    ensures Done(s, Handled(f, e, s, Layout(n).tag, len), Applied(s.p, n))
    ensures WellMeasured(n) ==> Handled(f, e, s, Layout(n).tag, len).c.pos == s.c.pos + len
  {
    LayoutLength(n, e);
    match n
    case Function(_, _, _, _, _) => FunctionRead(f, e, s, n, len);
    case Announce(_, _) => AnnounceRead(f, e, s, n);
    case Blocks(_) => BlocksRead(f, e, s, n, len);
    case Arcs(_, _) => ArcsRecordRead(f, e, s, n, len);
    case Lines(_, _) => LinesRecordRead(f, e, s, n);
    case Totals(_) => TotalsRead(f, e, s, len);
    case Program(_) => ProgramRead(f, e, s, len);
    case Other(_, _) =>
  }

  // ---------- one turn and the whole loop

  /** A record whose end lies in the file is passed with its effect, whatever its handler consumed. */
  lemma {:induction false} NoteRead(f: File, e: bool, s: State, n: Note)
    requires ValidNote(n) && (n.Lines? ==> s.p.current.Some?)
    requires s.status == Running && !s.c.stuck && Follows(f, s.c.pos, NoteWords(n, e))
    ensures Step(f, e, s) == State(s.c.(pos := s.c.pos + |NoteWords(n, e)|), Applied(s.p, n), Running)
  {
    var r := Layout(n);
    HeaderReadsBack(f, e, s.c, r);
    var len := |ItemsWords(r.items, e)|;
    var c1 := AfterRead(f, s.c, 1);
    var t := s.(c := s.c.(pos := s.c.pos + 2));
    ItemsWordsLength(r.items, e);
    HandlerRead(f, e, t, n, len);
    Landing(t, Handled(f, e, t, r.tag, len), s.c.pos + 2, len, Applied(s.p, n));
    assert c1 == s.c.(pos := s.c.pos + 1) by {
      assert s.c.pos + 2 <= |f|;
    }
  }

  lemma Landing(s: State, t: State, base: nat, len: nat, p: Progress)
    requires Done(s, t, p) && base + len < MAX_WORDS
    ensures Resumed(t, base, len) == State(s.c.(pos := base + len, stuck := false), p, Running)
  {
  }

  /** After the last record comes the end of the file, or a zero tag. */
  ghost predicate AtEnd(f: File, e: bool, c: Cursor) {
    UnsignedAt(f, e, c) == 0
  }

  lemma {:induction false} LastTurn(f: File, e: bool, s: State)
    requires s.status == Running && AtEnd(f, e, s.c)
    ensures Step(f, e, s).status == Finished && Step(f, e, s).p == s.p
  {
  }

  lemma FunctionIsKnown(p: Progress, notes: seq<Note>)
    requires notes != [] && (p.current.Some? || FunctionFirst(notes))
    ensures notes[0].Lines? ==> p.current.Some?
    ensures Applied(p, notes[0]).current.Some? || FunctionFirst(notes[1..])
  {
    AppliedKeeps(p, notes[0]);
  }

  /** The notes lie ahead in the file, up to the cursor `end`. */
  ghost predicate Ahead(f: File, e: bool, s: State, notes: seq<Note>, end: Cursor) {
    && ValidNotes(notes) && s.status == Running && !s.c.stuck
    && Follows(f, s.c.pos, NotesWords(notes, e))
    && (s.p.current.Some? || FunctionFirst(notes))
    && end == s.c.(pos := s.c.pos + |NotesWords(notes, e)|)
  }

  lemma {:induction false} NotesTurn(f: File, e: bool, s: State, notes: seq<Note>, end: Cursor) returns (t: State)
    requires Ahead(f, e, s, notes, end) && notes != []
    ensures Step(f, e, s) == t && Ahead(f, e, t, notes[1..], end)
    ensures AppliedAll(t.p, notes[1..]) == AppliedAll(s.p, notes)
  {
    var w, rest := NoteWords(notes[0], e), NotesWords(notes[1..], e);
    t := State(s.c.(pos := s.c.pos + |w|), Applied(s.p, notes[0]), Running);
    SplitAt(f, s.c, t.c, w, rest, NotesWords(notes, e));
    FunctionIsKnown(s.p, notes);
    NoteRead(f, e, s, notes[0]);
  }

  /** One turn per record. */
  lemma {:induction false} NotesTurns(f: File, e: bool, s: State, notes: seq<Note>, end: Cursor)
    requires Ahead(f, e, s, notes, end)
    ensures Turns(f, e, s, |notes|) == State(end, AppliedAll(s.p, notes), Running)
    decreases |notes|
  {
    if notes == [] {
      NoTurn(f, e, s, notes, end);
    } else {
      var t := NotesTurn(f, e, s, notes, end);
      NotesTurns(f, e, t, notes[1..], end);
      OneMoreTurn(f, e, s, t, notes);
    }
  }

  lemma {:induction false} NoTurn(f: File, e: bool, s: State, notes: seq<Note>, end: Cursor)
    requires Ahead(f, e, s, notes, end) && notes == []
    ensures s == State(end, AppliedAll(s.p, notes), Running)
  {
    assert s.c == s.c.(pos := s.c.pos + |NotesWords(notes, e)|);
  }

  lemma {:induction false} OneMoreTurn(f: File, e: bool, s: State, t: State, notes: seq<Note>)
    requires s.status == Running && Step(f, e, s) == t && notes != []
    ensures Turns(f, e, s, |notes|) == Turns(f, e, t, |notes[1..]|)
  {
  }

  lemma {:induction false} NotesRead(f: File, e: bool, s: State, notes: seq<Note>, end: Cursor)
    requires Ahead(f, e, s, notes, end) && AtEnd(f, e, end)
    ensures Ends(f, e, s) && Loop(f, e, s).status == Finished && Loop(f, e, s).p == AppliedAll(s.p, notes)
  {
    var n := |notes|;
    NotesTurns(f, e, s, notes, end);
    var t := Turns(f, e, s, n);
    LastTurn(f, e, t);
    assert Turns(f, e, s, n + 1) == Step(f, e, t) by {
      NextTurn(f, e, s, n);
    }
    LoopIs(f, e, s, n + 1);
  }

  lemma {:induction false} FunctionRemains(p: Progress, notes: seq<Note>)
    requires p.current.Some? || FunctionFirst(notes)
    ensures AppliedAll(p, notes).current.Some?
    decreases |notes|
  {
    if notes != [] {
      AppliedKeeps(p, notes[0]);
      FunctionRemains(Applied(p, notes[0]), notes[1..]);
    }
  }

  lemma AppliedKeeps(p: Progress, n: Note)
    ensures p.current.Some? || n.Function? ==> Applied(p, n).current.Some?
    ensures !n.Function? ==> Applied(p, n).processed == p.processed
  {
    if n.Lines? && p.current.Some? {
      LinesKeep(p, ToInt(Value(n.block)), [], n.items);
    }
  }

  lemma {:induction false} LinesKeep(p: Progress, block: int, filename: Bytes, items: seq<LineItem>)
    requires p.current.Some?
    ensures var q := WithLines(p, block, filename, items);
      && q.current.Some? && q.processed == p.processed && q.graph == p.graph
      && q.current.value.name == p.current.value.name && q.current.value.filename == p.current.value.filename
    decreases |items|
  {
    if items != [] {
      match items[0]
      case Line(n) => LinesKeep(WithLine(p, ToInt(Value(n)), block, filename), block, filename, items[1..]);
      case Source(name) => LinesKeep(p, block, name, items[1..]);
    }
  }

  /** Reading a well-formed file, in either byte order: the records take effect one after the other
      and the last function is handed over at the end. */
  lemma {:induction false} FileRead(f: File, magic: Word, version: Word, stamp: Word, notes: seq<Note>, e: bool)
    requires ValidNotes(notes) && FunctionFirst(notes)
    requires magic == NOTE_MAGIC || magic == DATA_MAGIC
    requires f == FileWords(magic, version, stamp, notes, e)
    ensures Terminates(f) && Opened(f).Parsed? && Opened(f).final.status == Finished
    ensures Opened(f).final.p.processed == Flush(AppliedAll(EMPTY, notes))
  {
    HeaderRead(f, magic, version, stamp, notes, e);
    var s := Begun(f);
    assert Follows(f, 3, NotesWords(notes, e)) by {
      FollowsParts(f, 0, [FromFile(magic, e), FromFile(version, e), FromFile(stamp, e)], NotesWords(notes, e));
    }
    NotesRead(f, e, s, notes, s.c.(pos := |f|));
    FunctionRemains(EMPTY, notes);
  }

  lemma HeaderRead(f: File, magic: Word, version: Word, stamp: Word, notes: seq<Note>, e: bool)
    requires ValidNotes(notes)
    requires magic == NOTE_MAGIC || magic == DATA_MAGIC
    requires f == FileWords(magic, version, stamp, notes, e)
    ensures ByteOrder(f) == Some(e) && AfterHeader(f) == START.(pos := 3)
  {
    assert f[0] == FromFile(magic, e);
    OrderRecognised(magic, e);
    ReadsInside(f, START, 1, 3);
  }

  lemma OrderRecognised(magic: Word, e: bool)
    requires magic == NOTE_MAGIC || magic == DATA_MAGIC
    ensures OrderOf(FromFile(magic, e)) == Some(e)
  {
    MagicExact(FromFile(magic, e));
    SwapInvolution(magic);
  }

  // ---------- byte order and transparency

  /** The byte order of a file does not show in what is processed. */
  lemma {:induction false} ByteOrderInvisible(f: File, g: File, magic: Word, version: Word, stamp: Word,
                                              notes: seq<Note>)
    requires ValidNotes(notes) && FunctionFirst(notes)
    requires magic == NOTE_MAGIC || magic == DATA_MAGIC
    requires f == FileWords(magic, version, stamp, notes, false)
    requires g == FileWords(magic, version, stamp, notes, true)
    ensures Terminates(f) && Terminates(g) && Opened(f).Parsed? && Opened(g).Parsed?
    ensures Opened(f).final.p.processed == Opened(g).final.p.processed
  {
    FileRead(f, magic, version, stamp, notes, false);
    FileRead(g, magic, version, stamp, notes, true);
  }

  /** The records that have an effect. */
  function Effective(notes: seq<Note>): (r: seq<Note>)
    ensures |r| <= |notes|
  {
    if notes == [] then []
    else if !notes[0].Function? && !notes[0].Arcs? && !notes[0].Lines? then Effective(notes[1..])
    else [notes[0]] + Effective(notes[1..])
  }

  lemma {:induction false} EffectiveApplies(p: Progress, notes: seq<Note>)
    ensures AppliedAll(p, notes) == AppliedAll(p, Effective(notes))
    decreases |notes|
  {
    if notes != [] {
      EffectiveApplies(Applied(p, notes[0]), notes[1..]);
      assert ([notes[0]] + Effective(notes[1..]))[1..] == Effective(notes[1..]);
    }
  }

  /** Two well-formed files that differ only in records without effect are processed alike; such are
      unknown and counter records, wherever they are inserted. */
  lemma {:induction false} UnknownRecordsTransparent(f: File, g: File, magic: Word, version: Word, stamp: Word,
                                  notes: seq<Note>, more: seq<Note>, e: bool)
    requires ValidNotes(notes) && FunctionFirst(notes) && ValidNotes(more) && FunctionFirst(more)
    requires magic == NOTE_MAGIC || magic == DATA_MAGIC
    requires f == FileWords(magic, version, stamp, notes, e)
    requires g == FileWords(magic, version, stamp, more, e)
    requires Effective(notes) == Effective(more)
    ensures Terminates(f) && Terminates(g) && Opened(f).Parsed? && Opened(g).Parsed?
    ensures Opened(f).final.p.processed == Opened(g).final.p.processed
  {
    FileRead(f, magic, version, stamp, notes, e);
    FileRead(g, magic, version, stamp, more, e);
    EffectiveApplies(EMPTY, notes);
    EffectiveApplies(EMPTY, more);
  }
}
