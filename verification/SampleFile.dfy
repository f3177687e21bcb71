/** One note file in numbers, from its words to what the analyser records of it. */
module SampleFile {
  import opened Graphs
  import opened Words
  import opened Cursors
  import opened Records
  import opened Analysis
  import opened NoteReader
  import opened NoteFiles
  import opened Grouping
  import opened Structured
  import opened FunctionMeasures
  import opened CyclomaticNumbers
  import opened CompiledFiles

  // ---------- small numbers and strings as words

  lemma {:induction false} OfByte(n: nat, b: bv8, w: Word)
    requires n < 256 && b as int == n && w == b as bv32
    ensures OfNat(n) == w && Value(w) == n
  {
    OfDigits(n, 0, 0, 0, n);
    ByteNumber(n, b);
    assert Join(0, 0, 0, b) == w;
    ValueOfNat(n);
  }

  lemma {:induction false} ByteNumber(n: nat, b: bv8)
    requires n < 256 && b as int == n
    ensures n as bv8 == b
  {
  }

  /** "main", "a.c" and "b.h". */
  const MAIN: Bytes := [0x6d, 0x61, 0x69, 0x6e]
  const A_C: Bytes := [0x61, 0x2e, 0x63]
  const B_H: Bytes := [0x62, 0x2e, 0x68]

  lemma {:induction false} OneWord(s: Bytes, w: Word)
    requires |s| == 3 && w == Join(0, s[2], s[1], s[0])
    ensures StringAlloc(|s|) == 1 && StringWords(s) == [w]
  {
    var b := Padded(s);
    assert b == [s[0], s[1], s[2], 0];
    assert b[4..] == [];
    assert PackWords(b) == [Join(b[3], b[2], b[1], b[0])] + PackWords(b[4..]);
  }

  lemma {:induction false} MainWords()
    ensures StringAlloc(|MAIN|) == 2 && StringWords(MAIN) == [0x6e69_616d, 0]
  {
    var b := Padded(MAIN);
    assert b == [0x6d, 0x61, 0x69, 0x6e, 0, 0, 0, 0];
    assert b[4..] == [0, 0, 0, 0] && b[4..][4..] == [];
    assert PackWords(b[4..]) == [Join(0, 0, 0, 0)] + PackWords(b[4..][4..]);
    assert Join(0x6e, 0x69, 0x61, 0x6d) == 0x6e69_616d && Join(0, 0, 0, 0) == 0;
  }

  lemma {:induction false} NameWords()
    ensures StringItem(Some(MAIN), false) == [2, 0x6e69_616d, 0]
    ensures StringItem(Some(A_C), false) == [1, 0x0063_2e61]
    ensures StringItem(Some(B_H), false) == [1, 0x0068_2e62]
  {
    MainWords();
    assert Join(0, 0x63, 0x2e, 0x61) == 0x0063_2e61 && Join(0, 0x68, 0x2e, 0x62) == 0x0068_2e62;
    OneWord(A_C, 0x0063_2e61);
    OneWord(B_H, 0x0068_2e62);
    OfByte(1, 1, 1);
    OfByte(2, 2, 2);
  }

  // ---------- the words of records

  lemma {:induction false} NumsAre(ws: seq<Word>)
    ensures ValidItems(Nums(ws)) && ItemsWords(Nums(ws), false) == ws
    decreases |ws|
  {
    if ws != [] {
      assert Nums(ws)[1..] == Nums(ws[1..]);
      NumsAre(ws[1..]);
      assert ws == [ws[0]] + ws[1..];
    }
  }

  lemma {:induction false} ItemsAppend(a: seq<Item>, b: seq<Item>)
    requires ValidItems(a) && ValidItems(b)
    ensures ValidItems(a + b) && ItemsWords(a + b, false) == ItemsWords(a, false) + ItemsWords(b, false)
    decreases |a|
  {
    if a == [] {
      assert a + b == b;
    } else {
      var rest := a[1..];
      assert (a + b)[1..] == rest + b && (a + b)[0] == a[0];
      assert ValidItems(rest);
      ItemsAppend(rest, b);
      Rejoined(ItemWords(a[0], false), ItemsWords(rest, false), ItemsWords(b, false));
    }
  }

  lemma {:induction false} Rejoined(x: seq<Word>, y: seq<Word>, z: seq<Word>)
    ensures x + (y + z) == (x + y) + z
  {
  }

  /** Some numbers, then a string. */
  lemma {:induction false} NumsThenName(ws: seq<Word>, s: Option<Bytes>, name: seq<Word>)
    requires ValidItem(Str(s)) && StringItem(s, false) == name
    ensures ValidItems(Nums(ws) + [Str(s)]) && ItemsWords(Nums(ws) + [Str(s)], false) == ws + name
  {
    var one := [Str(s)];
    assert one[1..] == [] && ItemsWords(one[1..], false) == [];
    assert ItemsWords(one, false) == name + [];
    NumsAre(ws);
    ItemsAppend(Nums(ws), one);
  }

  /** The words of a record, from those of its items. */
  lemma {:induction false} RecordIs(r: Record, ws: seq<Word>, b: bv8)
    requires r.tag != 0 && ValidItems(r.items) && ItemsWords(r.items, false) == ws && b as int == |ws| < 256
    ensures ValidRecord(r) && RecordWords(r, false) == [r.tag, b as bv32] + ws
  {
    OfByte(|ws|, b, b as bv32);
  }

  const MAIN_FUNCTION := Function(3, 0x1234, MAIN, A_C, 41)
  const MAIN_LINES := Lines(1, [Source(A_C), Line(42), Line(43), Source(B_H), Line(7)])

  lemma {:induction false} ThreeParts(a: seq<Item>, b: seq<Item>, c: seq<Item>,
                                      x: seq<Word>, y: seq<Word>, z: seq<Word>)
    requires ValidItems(a) && ValidItems(b) && ValidItems(c)
    requires ItemsWords(a, false) == x && ItemsWords(b, false) == y && ItemsWords(c, false) == z
    ensures ValidItems(a + b + c) && ItemsWords(a + b + c, false) == x + y + z
  {
    ItemsAppend(a, b);
    ItemsAppend(a + b, c);
  }

  lemma {:induction false} NamesThenNums(p: seq<Word>, r: seq<Word>, a: Bytes, b: Bytes, v: seq<Word>, w: seq<Word>)
    requires ValidItem(Str(Some(a))) && StringItem(Some(a), false) == v
    requires ValidItem(Str(Some(b))) && StringItem(Some(b), false) == w
    ensures var items := (Nums(p) + [Str(Some(a))]) + (Nums([]) + [Str(Some(b))]) + Nums(r);
      ValidItems(items) && ItemsWords(items, false) == (p + v) + ([] + w) + r
  {
    NumsThenName(p, Some(a), v);
    NumsThenName([], Some(b), w);
    NumsAre(r);
    ThreeParts(Nums(p) + [Str(Some(a))], Nums([]) + [Str(Some(b))], Nums(r), p + v, [] + w, r);
  }

  lemma {:induction false} FunctionParts(items: seq<Item>, a: Bytes, b: Bytes)
    requires items == [Num(3), Num(0x1234), Str(Some(a)), Str(Some(b)), Num(41)]
    ensures items == (Nums([3, 0x1234]) + [Str(Some(a))]) + (Nums([]) + [Str(Some(b))]) + Nums([41])
  {
  }

  lemma {:induction false} FunctionItems(items: seq<Item>, a: Bytes, b: Bytes, v: Word, w: Word)
    requires items == [Num(3), Num(0x1234), Str(Some(a)), Str(Some(b)), Num(41)]
    requires ValidItem(Str(Some(a))) && StringItem(Some(a), false) == [2, v, 0]
    requires ValidItem(Str(Some(b))) && StringItem(Some(b), false) == [1, w]
    ensures ValidItems(items) && ItemsWords(items, false) == [3, 0x1234, 2, v, 0, 1, w, 41]
  {
    NamesThenNums([3, 0x1234], [41], a, b, [2, v, 0], [1, w]);
    FunctionParts(items, a, b);
  }

  lemma {:induction false} FunctionWords(n: Note, a: Bytes, b: Bytes, v: Word, w: Word)
    requires n == Function(3, 0x1234, a, b, 41)
    requires ValidItem(Str(Some(a))) && StringItem(Some(a), false) == [2, v, 0]
    requires ValidItem(Str(Some(b))) && StringItem(Some(b), false) == [1, w]
    ensures ValidNote(n) && NoteWords(n, false) == [0x0100_0000, 8] + [3, 0x1234, 2, v, 0, 1, w, 41]
  {
    var r := Layout(n);
    FunctionItems(r.items, a, b, v, w);
    RecordIs(r, [3, 0x1234, 2, v, 0, 1, w, 41], 8);
  }

  lemma {:induction false} LineFirst(n: Word, rest: seq<LineItem>)
    ensures LineItems([Line(n)] + rest) == [Num(n)] + LineItems(rest)
  {
    assert ([Line(n)] + rest)[1..] == rest;
  }

  lemma {:induction false} SourceFirst(name: Bytes, rest: seq<LineItem>)
    ensures LineItems([Source(name)] + rest) == [Num(0), Str(Some(name))] + LineItems(rest)
  {
    assert ([Source(name)] + rest)[1..] == rest;
  }

  lemma {:induction false} MainLineItems(a: Bytes, b: Bytes)
    ensures LineItems([Source(a), Line(42), Line(43), Source(b), Line(7)]) ==
      [Num(0), Str(Some(a)), Num(42), Num(43), Num(0), Str(Some(b)), Num(7), Num(0), Str(None)]
  {
    var r0: seq<LineItem> := [];
    var r1, r2 := [Line(7)] + r0, [Source(b)] + ([Line(7)] + r0);
    var r3 := [Line(43)] + r2;
    var r4 := [Line(42)] + r3;
    LineFirst(7, r0);
    SourceFirst(b, r1);
    LineFirst(43, r2);
    LineFirst(42, r3);
    SourceFirst(a, r4);
    assert [Source(a), Line(42), Line(43), Source(b), Line(7)] == [Source(a)] + r4;
  }

  lemma {:induction false} TwoNames(p: seq<Word>, q: seq<Word>, r: seq<Word>, a: Bytes, b: Bytes,
                                    v: seq<Word>, w: seq<Word>)
    requires ValidItem(Str(Some(a))) && StringItem(Some(a), false) == v
    requires ValidItem(Str(Some(b))) && StringItem(Some(b), false) == w
    ensures var items := (Nums(p) + [Str(Some(a))]) + (Nums(q) + [Str(Some(b))]) + (Nums(r) + [Str(None)]);
      ValidItems(items) && ItemsWords(items, false) == (p + v) + (q + w) + (r + [0])
  {
    NumsThenName(p, Some(a), v);
    NumsThenName(q, Some(b), w);
    NumsThenName(r, None, [0]);
    ThreeParts(Nums(p) + [Str(Some(a))], Nums(q) + [Str(Some(b))], Nums(r) + [Str(None)], p + v, q + w, r + [0]);
  }

  lemma {:induction false} LineParts(items: seq<Item>, a: Bytes, b: Bytes)
    requires items ==
      [Num(1), Num(0), Str(Some(a)), Num(42), Num(43), Num(0), Str(Some(b)), Num(7), Num(0), Str(None)]
    ensures items
      == (Nums([1, 0]) + [Str(Some(a))]) + (Nums([42, 43, 0]) + [Str(Some(b))]) + (Nums([7, 0]) + [Str(None)])
  {
  }

  lemma {:induction false} LineNumbers(items: seq<Item>, a: Bytes, b: Bytes, v: Word, w: Word)
    requires items ==
      [Num(1), Num(0), Str(Some(a)), Num(42), Num(43), Num(0), Str(Some(b)), Num(7), Num(0), Str(None)]
    requires ValidItem(Str(Some(a))) && StringItem(Some(a), false) == [1, v]
    requires ValidItem(Str(Some(b))) && StringItem(Some(b), false) == [1, w]
    ensures ValidItems(items) && ItemsWords(items, false) == [1, 0, 1, v, 42, 43, 0, 1, w, 7, 0, 0]
  {
    TwoNames([1, 0], [42, 43, 0], [7, 0], a, b, [1, v], [1, w]);
    LineParts(items, a, b);
  }

  lemma {:induction false} LinesWords(n: Note, items: seq<Item>, ws: seq<Word>)
    requires n.Lines? && Layout(n).items == items && |ws| == 12
    requires ValidItems(items) && ItemsWords(items, false) == ws
    requires forall i :: 0 <= i < |n.items| ==> ValidLineItem(n.items[i])
    ensures ValidNote(n) && NoteWords(n, false) == [0x0145_0000, 12] + ws
  {
    RecordIs(Layout(n), ws, 12);
  }

  /** A record of numbers only. */
  lemma {:induction false} PlainWords(n: Note, ws: seq<Word>, b: bv8)
    requires n.Blocks? || n.Totals? || n.Program? || n.Other? || n.Arcs?
    requires Layout(n).tag != 0 && Layout(n).items == Nums(ws) && b as int == |ws| < 256
    requires (n.Program? ==> |ws| >= 9) && (n.Other? ==> !HandledTag(n.tag))
    ensures ValidNote(n) && NoteWords(n, false) == [Layout(n).tag, b as bv32] + ws
  {
    NumsAre(ws);
    RecordIs(Layout(n), ws, b);
  }

  lemma {:induction false} OneArc(block: Word, dest: Word, flags: Word)
    ensures var n := Arcs(block, [Arc(dest, flags)]);
      ValidNote(n) && NoteWords(n, false) == [0x0143_0000, 3] + [block, dest, flags]
  {
    var arcs := [Arc(dest, flags)];
    assert arcs[1..] == [] && ArcItems(arcs[1..]) == [];
    assert [Num(block)] + ArcItems(arcs) == Nums([block, dest, flags]);
    PlainWords(Arcs(block, arcs), [block, dest, flags], 3);
  }

  lemma {:induction false} TwoArcs(block: Word, d: Word, x: Word, e: Word, y: Word)
    ensures var n := Arcs(block, [Arc(d, x), Arc(e, y)]);
      ValidNote(n) && NoteWords(n, false) == [0x0143_0000, 5] + [block, d, x, e, y]
  {
    var arcs := [Arc(d, x), Arc(e, y)];
    assert arcs[1..] == [Arc(e, y)] && arcs[1..][1..] == [];
    assert ArcItems(arcs[1..]) == [Num(e), Num(y)];
    assert [Num(block)] + ArcItems(arcs) == Nums([block, d, x, e, y]);
    PlainWords(Arcs(block, arcs), [block, d, x, e, y], 5);
  }

  // ---------- the file

  function Concat(rows: seq<seq<Word>>): seq<Word> {
    if rows == [] then [] else rows[0] + Concat(rows[1..])
  }

  /** A note file behind its header, one row for each record. */
  const WORDS: seq<seq<Word>> := [
    [0x0100_0000, 8, 3, 0x1234, 2, 0x6e69_616d, 0, 1, 0x0063_2e61, 41],
    [0x0141_0000, 5, 0, 0, 0, 0, 0],
    [0x0143_0000, 3, 0, 1, 0],
    [0x0143_0000, 5, 1, 2, 4, 3, 1],
    [0x0143_0000, 3, 2, 3, 5],
    [0x0143_0000, 3, 3, 4, 1],
    [0x0145_0000, 12, 1, 0, 1, 0x0063_2e61, 42, 43, 0, 1, 0x0068_2e62, 7, 0, 0],
    [0xa100_0000, 2, 5, 0],
    [0xa300_0000, 9, 9, 1, 1, 6, 0, 6, 0, 6, 0],
    [0x01a1_0000, 1, 9]
  ]

  const NOTES: seq<Note> := [
    MAIN_FUNCTION, Blocks([0, 0, 0, 0, 0]), Arcs(0, [Arc(1, 0)]), Arcs(1, [Arc(2, 4), Arc(3, 1)]),
    Arcs(2, [Arc(3, 5)]), Arcs(3, [Arc(4, 1)]), MAIN_LINES, Totals([5, 0]),
    Program([9, 1, 1, 6, 0, 6, 0, 6, 0]), Other(0x01a1_0000, [9])
  ]

  ghost predicate InWords(n: Note, row: seq<Word>, e: bool) {
    ValidNote(n) && NoteWords(n, e) == row
  }

  /** The record is laid out as that row. */
  ghost predicate HasWords(n: Note, row: seq<Word>) {
    forall e: bool :: !e ==> InWords(n, row, e)
  }

  /** The records are laid out as those rows. */
  ghost predicate HaveWords(notes: seq<Note>, rows: seq<seq<Word>>) {
    |notes| == |rows| && forall i :: 0 <= i < |notes| ==> HasWords(notes[i], rows[i])
  }

  lemma {:induction false} RowsAre(notes: seq<Note>, rows: seq<seq<Word>>)
    requires HaveWords(notes, rows)
    ensures ValidNotes(notes) && NotesWords(notes, false) == Concat(rows)
    decreases |notes|
  {
    forall i | 0 <= i < |notes|
      ensures ValidNote(notes[i]) && NoteWords(notes[i], false) == rows[i]
    {
      assert HasWords(notes[i], rows[i]);
      assert InWords(notes[i], rows[i], false);
    }
    if notes != [] {
      assert forall i :: 0 <= i < |notes| - 1 ==> notes[1..][i] == notes[i + 1] && rows[1..][i] == rows[i + 1];
      RowsAre(notes[1..], rows[1..]);
    }
  }

  lemma {:induction false} PlainRow(n: Note, ws: seq<Word>, b: bv8, row: seq<Word>)
    requires n.Blocks? || n.Totals? || n.Program? || n.Other?
    requires Layout(n).tag != 0 && Layout(n).items == Nums(ws) && b as int == |ws| < 256
    requires (n.Program? ==> |ws| >= 9) && (n.Other? ==> !HandledTag(n.tag))
    requires row == [Layout(n).tag, b as bv32] + ws
    ensures HasWords(n, row)
  {
    PlainWords(n, ws, b);
  }

  lemma {:induction false} BlocksRow()
    ensures HasWords(Blocks([0, 0, 0, 0, 0]), [0x0141_0000, 5, 0, 0, 0, 0, 0])
  {
    PlainRow(Blocks([0, 0, 0, 0, 0]), [0, 0, 0, 0, 0], 5, [0x0141_0000, 5, 0, 0, 0, 0, 0]);
  }

  lemma {:induction false} SummaryRows()
    ensures HasWords(Totals([5, 0]), [0xa100_0000, 2, 5, 0])
    ensures HasWords(Program([9, 1, 1, 6, 0, 6, 0, 6, 0]), [0xa300_0000, 9, 9, 1, 1, 6, 0, 6, 0, 6, 0])
  {
    PlainRow(Totals([5, 0]), [5, 0], 2, [0xa100_0000, 2, 5, 0]);
    PlainRow(Program([9, 1, 1, 6, 0, 6, 0, 6, 0]), [9, 1, 1, 6, 0, 6, 0, 6, 0], 9,
      [0xa300_0000, 9, 9, 1, 1, 6, 0, 6, 0, 6, 0]);
  }

  lemma {:induction false} OtherRow()
    ensures HasWords(Other(0x01a1_0000, [9]), [0x01a1_0000, 1, 9])
  {
    PlainRow(Other(0x01a1_0000, [9]), [9], 1, [0x01a1_0000, 1, 9]);
  }

  lemma {:induction false} ArcRow(block: Word, dest: Word, flags: Word)
    ensures HasWords(Arcs(block, [Arc(dest, flags)]), [0x0143_0000, 3, block, dest, flags])
  {
    OneArc(block, dest, flags);
  }

  lemma {:induction false} BranchRow()
    ensures HasWords(Arcs(1, [Arc(2, 4), Arc(3, 1)]), [0x0143_0000, 5, 1, 2, 4, 3, 1])
  {
    TwoArcs(1, 2, 4, 3, 1);
  }

  lemma {:induction false} FunctionRow(n: Note, a: Bytes, b: Bytes, v: Word, w: Word)
    requires n == Function(3, 0x1234, a, b, 41)
    requires ValidItem(Str(Some(a))) && StringItem(Some(a), false) == [2, v, 0]
    requires ValidItem(Str(Some(b))) && StringItem(Some(b), false) == [1, w]
    ensures HasWords(n, [0x0100_0000, 8, 3, 0x1234, 2, v, 0, 1, w, 41])
  {
    FunctionWords(n, a, b, v, w);
  }

  lemma {:induction false} LinesValid(items: seq<LineItem>, a: Bytes, b: Bytes)
    requires items == [Source(a), Line(42), Line(43), Source(b), Line(7)]
    requires ValidItem(Str(Some(a))) && ValidItem(Str(Some(b)))
    ensures forall i :: 0 <= i < |items| ==> ValidLineItem(items[i])
  {
  }

  lemma {:induction false} LinesLaidOut(n: Note, a: Bytes, b: Bytes, v: Word, w: Word, ws: seq<Word>)
    requires n == Lines(1, [Source(a), Line(42), Line(43), Source(b), Line(7)])
    requires ValidItem(Str(Some(a))) && StringItem(Some(a), false) == [1, v]
    requires ValidItem(Str(Some(b))) && StringItem(Some(b), false) == [1, w]
    requires ws == [1, 0, 1, v, 42, 43, 0, 1, w, 7, 0, 0]
    ensures ValidItems(Layout(n).items) && ItemsWords(Layout(n).items, false) == ws
  {
    var items := Layout(n).items;
    assert items ==
      [Num(1), Num(0), Str(Some(a)), Num(42), Num(43), Num(0), Str(Some(b)), Num(7), Num(0), Str(None)] by {
      MainLineItems(a, b);
    }
    LineNumbers(items, a, b, v, w);
  }

  lemma {:induction false} LinesRow(n: Note, ws: seq<Word>, row: seq<Word>)
    requires n.Lines? && |ws| == 12 && row == [0x0145_0000, 12] + ws
    requires ValidItems(Layout(n).items) && ItemsWords(Layout(n).items, false) == ws
    requires forall i :: 0 <= i < |n.items| ==> ValidLineItem(n.items[i])
    ensures HasWords(n, row)
  {
    LinesWords(n, Layout(n).items, ws);
  }

  lemma {:induction false} LinesInRow(n: Note, a: Bytes, b: Bytes, v: Word, w: Word, ws: seq<Word>, row: seq<Word>)
    requires n == Lines(1, [Source(a), Line(42), Line(43), Source(b), Line(7)])
    requires ValidItem(Str(Some(a))) && StringItem(Some(a), false) == [1, v]
    requires ValidItem(Str(Some(b))) && StringItem(Some(b), false) == [1, w]
    requires ws == [1, 0, 1, v, 42, 43, 0, 1, w, 7, 0, 0] && row == [0x0145_0000, 12] + ws
    ensures HasWords(n, row)
  {
    assert ValidItems(Layout(n).items) && ItemsWords(Layout(n).items, false) == ws by {
      LinesLaidOut(n, a, b, v, w, ws);
    }
    assert forall i :: 0 <= i < |n.items| ==> ValidLineItem(n.items[i]) by {
      LinesValid(n.items, a, b);
    }
    LinesRow(n, ws, row);
  }

  lemma {:induction false} NamedRows()
    ensures HasWords(MAIN_FUNCTION, [0x0100_0000, 8, 3, 0x1234, 2, 0x6e69_616d, 0, 1, 0x0063_2e61, 41])
    ensures HasWords(MAIN_LINES, [0x0145_0000, 12, 1, 0, 1, 0x0063_2e61, 42, 43, 0, 1, 0x0068_2e62, 7, 0, 0])
  {
    NameWords();
    FunctionRow(MAIN_FUNCTION, MAIN, A_C, 0x6e69_616d, 0x0063_2e61);
    var ws: seq<Word> := [1, 0, 1, 0x0063_2e61, 42, 43, 0, 1, 0x0068_2e62, 7, 0, 0];
    LinesInRow(MAIN_LINES, A_C, B_H, 0x0063_2e61, 0x0068_2e62, ws, [0x0145_0000, 12] + ws);
    assert [0x0145_0000, 12] + ws
      == [0x0145_0000, 12, 1, 0, 1, 0x0063_2e61, 42, 43, 0, 1, 0x0068_2e62, 7, 0, 0];
  }

  lemma {:induction false} NotesAre()
    ensures HaveWords(NOTES, WORDS)
  {
    NamedRows();
    BlocksRow();
    ArcRow(0, 1, 0);
    ArcRow(2, 3, 5);
    ArcRow(3, 4, 1);
    BranchRow();
    SummaryRows();
    OtherRow();
  }

  // ---------- its one function

  /** The function's flow graph: one block with two ways on. */
  const BRANCH: Graph := [[1], [2, 3], [3], [4], []]

  lemma {:induction false} ArcFirst(b: Word, d: Word, x: Word, u: nat, v: nat, body: seq<Note>)
    requires Value(b) == u && Value(d) == v
    ensures AllArcs([Arcs(b, [Arc(d, x)])] + body) == [(u, v)] + AllArcs(body)
  {
    var n := Arcs(b, [Arc(d, x)]);
    assert ([n] + body)[1..] == body && n.arcs[1..] == [];
    assert PairsOf(u, n.arcs) == [(u, v)] + PairsOf(u, []);
  }

  lemma {:induction false} NoArc(n: Note, body: seq<Note>)
    requires !n.Arcs?
    ensures AllArcs([n] + body) == AllArcs(body)
  {
    assert ([n] + body)[1..] == body;
  }

  /** A function between its entry and its exit, as the file gives it. */
  lemma {:induction false} MainArcs(body: seq<Note>, after: seq<Note>)
    requires body ==
      [Arcs(0, [Arc(1, 0)]), Arcs(1, [Arc(2, 4), Arc(3, 1)]), Arcs(2, [Arc(3, 5)]), Arcs(3, [Arc(4, 1)])] + after
    requires AllArcs(after) == []
    ensures AllArcs(body) == [(0, 1), (1, 2), (1, 3), (2, 3), (3, 4)]
  {
    SmallNumbers();
    var b3 := [Arcs(3, [Arc(4, 1)])] + after;
    var b2 := [Arcs(2, [Arc(3, 5)])] + b3;
    var b1 := [Arcs(1, [Arc(2, 4), Arc(3, 1)])] + b2;
    ArcFirst(3, 4, 1, 3, 4, after);
    ArcFirst(2, 3, 5, 2, 3, b3);
    TwoArcsFirst(1, 2, 4, 3, 1, 1, 2, 3, b2);
    ArcFirst(0, 1, 0, 0, 1, b1);
    assert body == [Arcs(0, [Arc(1, 0)])] + b1;
  }

  lemma {:induction false} SmallNumbers()
    ensures Value(0) == 0 && Value(1) == 1 && Value(2) == 2 && Value(3) == 3 && Value(4) == 4
    ensures Value(7) == 7 && Value(42) == 42 && Value(43) == 43
  {
    OfByte(0, 0, 0);
    OfByte(1, 1, 1);
    OfByte(2, 2, 2);
    OfByte(3, 3, 3);
    OfByte(4, 4, 4);
    OfByte(7, 7, 7);
    OfByte(42, 42, 42);
    OfByte(43, 43, 43);
  }

  lemma {:induction false} TwoArcsFirst(b: Word, d: Word, x: Word, e: Word, y: Word, u: nat, v: nat, w: nat,
                                        body: seq<Note>)
    requires Value(b) == u && Value(d) == v && Value(e) == w
    ensures AllArcs([Arcs(b, [Arc(d, x), Arc(e, y)])] + body) == [(u, v), (u, w)] + AllArcs(body)
  {
    var n := Arcs(b, [Arc(d, x), Arc(e, y)]);
    assert ([n] + body)[1..] == body && n.arcs[1..] == [Arc(e, y)] && n.arcs[1..][1..] == [];
    assert PairsOf(u, n.arcs[1..]) == [(u, w)] + PairsOf(u, []);
    assert PairsOf(u, n.arcs) == [(u, v)] + PairsOf(u, n.arcs[1..]);
  }

  lemma {:induction false} NoArcs(body: seq<Note>)
    requires forall i :: 0 <= i < |body| ==> !body[i].Arcs?
    ensures AllArcs(body) == []
    decreases |body|
  {
    if body != [] {
      NoArcs(body[1..]);
    }
  }

  lemma {:induction false} NoLines(body: seq<Note>)
    requires forall i :: 0 <= i < |body| ==> !body[i].Lines?
    ensures AllLines(body) == []
    decreases |body|
  {
    if body != [] {
      NoLines(body[1..]);
    }
  }

  /** The only line record of a body. */
  lemma {:induction false} OneLines(front: seq<Note>, n: Note, after: seq<Note>)
    requires n.Lines? && forall i :: 0 <= i < |front| ==> !front[i].Lines?
    requires forall i :: 0 <= i < |after| ==> !after[i].Lines?
    ensures AllLines(front + [n] + after) == Listed(ToInt(Value(n.block)), [], n.items)
    decreases |front|
  {
    var all := front + [n] + after;
    if front == [] {
      NoLines(after);
      assert all[0] == n && all[1..] == after;
    } else {
      assert all[0] == front[0] && all[1..] == front[1..] + [n] + after;
      OneLines(front[1..], n, after);
    }
  }

  lemma {:induction false} MainListed(a: Bytes, b: Bytes)
    ensures Listed(1, [], [Source(a), Line(42), Line(43), Source(b), Line(7)])
      == [Entry(42, 1, a), Entry(43, 1, a), Entry(7, 1, b)]
  {
    SmallNumbers();
    var r1: seq<LineItem> := [Line(7)];
    var r2, r3 := [Source(b)] + r1, [Line(43)] + ([Source(b)] + r1);
    var r4 := [Line(42)] + r3;
    assert r1[1..] == [] && r2[1..] == r1 && r3[1..] == r2 && r4[1..] == r3;
    assert [Source(a), Line(42), Line(43), Source(b), Line(7)] == [Source(a)] + r4;
    assert ([Source(a)] + r4)[1..] == r4;
    assert Listed(1, b, r1) == [Entry(7, 1, b)];
    assert Listed(1, a, r2) == [Entry(7, 1, b)];
    assert Listed(1, a, r3) == [Entry(43, 1, a), Entry(7, 1, b)];
  }

  lemma {:induction false} MainLinesNoted(a: Bytes, b: Bytes)
    requires a != b
    ensures var entries := [Entry(42, 1, a), Entry(43, 1, a), Entry(7, 1, b)];
      Matching(a, entries) == [(42, 1), (43, 1)] && FirstLine(0, entries) == 42
  {
    var e1 := [Entry(7, 1, b)];
    var e2 := [Entry(43, 1, a)] + e1;
    var entries := [Entry(42, 1, a)] + e2;
    assert e1[1..] == [] && e2[1..] == e1 && entries[1..] == e2;
    assert Matching(a, e1) == [] && Matching(a, e2) == [(43, 1)];
    assert entries == [Entry(42, 1, a), Entry(43, 1, a), Entry(7, 1, b)];
    assert FirstLine(0, entries) == FirstLine(42, e2) == 42;
  }

  lemma {:induction false} MainGraph()
    ensures GraphFrom([], [(0, 1), (1, 2), (1, 3), (2, 3), (3, 4)]) == BRANCH
  {
    var arcs: seq<(nat, nat)> := [(0, 1), (1, 2), (1, 3), (2, 3), (3, 4)];
    BranchFormed(BRANCH);
    forall x: nat, y: nat
      ensures HasEdge(BRANCH, x, y) <==> (x, y) in arcs
    {
      BranchEdge(BRANCH, x, y);
    }
    BuiltGraph(arcs, BRANCH);
  }

  lemma {:induction false} BranchFormed(g: Graph)
    requires g == BRANCH
    ensures WellFormed(g) && HasEdge(g, |g| - 2, |g| - 1)
  {
    assert g[3][0] == 4;
  }

  lemma {:induction false} BranchEdge(g: Graph, x: nat, y: nat)
    requires g == BRANCH
    ensures HasEdge(g, x, y) <==>
      (x == 0 && y == 1) || (x == 1 && (y == 2 || y == 3)) || (x == 2 && y == 3) || (x == 3 && y == 4)
  {
  }

  /** What the analyser receives for the function. */
  const MAIN_UNIT := Unit(FunctionData(MAIN, A_C, 42), BRANCH, [(42, 1), (43, 1)])

  lemma {:induction false} BodyArcs(body: seq<Note>)
    requires body == NOTES[1..]
    ensures AllArcs(body) == [(0, 1), (1, 2), (1, 3), (2, 3), (3, 4)]
  {
    var after := NOTES[6..];
    NoArcs(after);
    var arcs :=
      [Arcs(0, [Arc(1, 0)]), Arcs(1, [Arc(2, 4), Arc(3, 1)]), Arcs(2, [Arc(3, 5)]), Arcs(3, [Arc(4, 1)])] + after;
    MainArcs(arcs, after);
    NoArc(Blocks([0, 0, 0, 0, 0]), arcs);
    assert body == [Blocks([0, 0, 0, 0, 0])] + arcs;
  }

  lemma {:induction false} BodyLines(body: seq<Note>)
    requires body == NOTES[1..]
    ensures AllLines(body) == [Entry(42, 1, A_C), Entry(43, 1, A_C), Entry(7, 1, B_H)]
  {
    var front, after := NOTES[1..6], NOTES[7..];
    OneLines(front, MAIN_LINES, after);
    assert body == front + [MAIN_LINES] + after;
    SmallNumbers();
    MainListed(A_C, B_H);
  }

  lemma {:induction false} MainUnit(body: seq<Note>)
    requires body == NOTES[1..]
    ensures UnitOf(MAIN_FUNCTION, body) == MAIN_UNIT
  {
    BodyArcs(body);
    BodyLines(body);
    MainGraph();
    assert A_C[0] != B_H[0];
    MainLinesNoted(A_C, B_H);
  }

  lemma {:induction false} MainUnits(notes: seq<Note>)
    requires notes == NOTES
    ensures UnitsOf(notes) == [MAIN_UNIT] && FunctionFirst(notes)
  {
    var body := NOTES[1..];
    MainUnit(body);
    FirstUnit(MAIN_FUNCTION, body, [], notes);
    assert notes == [MAIN_FUNCTION] + body + [];
  }

  lemma {:induction false} FileOf(f: File, magic: Word, version: Word, stamp: Word, notes: seq<Note>,
                                  rows: seq<seq<Word>>)
    requires HaveWords(notes, rows) && FunctionFirst(notes)
    requires magic == NOTE_MAGIC || magic == DATA_MAGIC
    requires f == [magic, version, stamp] + Concat(rows)
    ensures Terminates(f) && Opened(f).Parsed? && Opened(f).final.status == Finished
    ensures Opened(f).final.p.processed == UnitsOf(notes)
  {
    RowsAre(notes, rows);
    ReaderGroups(f, magic, version, stamp, notes, false);
  }

  /** A whole file in numbers: behind either magic, its only function is handed over with its name, source
      file, first line, edges and lines, and with nothing from the other records. */
  lemma {:induction false} SampleRead(f: File, magic: Word, version: Word, stamp: Word)
    requires magic == 0x6763_6e6f || magic == 0x6763_6461
    requires f == [magic, version, stamp] + Concat(WORDS)
    ensures Terminates(f) && Opened(f).Parsed? && Opened(f).final.status == Finished
    ensures Opened(f).final.p.processed == [MAIN_UNIT]
  {
    NotesAre();
    MainUnits(NOTES);
    FileOf(f, magic, version, stamp, NOTES, WORDS);
  }

  lemma {:induction false} BranchCompiled()
    ensures FunctionGraph(IF_ASSIGNS) == BRANCH
  {
    var code := Code(IF_ASSIGNS, 3, [4]);
    assert Size(IF_ASSIGNS) == 2;
    assert code == [[2, 3], [3]];
  }

  /** The analyser records these measures of the graph. */
  ghost predicate MeasuredAs(fn: FunctionData, g: Graph, m: Measures) {
    WellFormed(g) && |g| >= 2 && Measured(fn, g) == m
  }

  lemma {:induction false} CodeMeasured(fn: FunctionData, s: Stmt, g: Graph, m: Measures)
    requires g == FunctionGraph(s)
    requires m == Measures(fn, Decisions(s) - 1, Npath(s), Decisions(s) + Calls(s), Npath(s) + Throws(s))
    ensures MeasuredAs(fn, g, m)
  {
    StructuredMeasures(fn, s);
    StructuredCyclomatic(fn, s);
  }

  lemma {:induction false} BranchNumbers(s: Stmt)
    requires s == IF_ASSIGNS
    ensures Npath(s) == 2 && Throws(s) == 0 && Decisions(s) == 1 && Calls(s) == 0
  {
  }

  lemma {:induction false} BranchMeasured(fn: FunctionData, g: Graph, s: Stmt)
    requires g == FunctionGraph(s) && s == IF_ASSIGNS
    ensures MeasuredAs(fn, g, Measures(fn, 0, 2, 1, 2))
  {
    BranchNumbers(s);
    CodeMeasured(fn, s, g, Measures(fn, 0, 2, 1, 2));
  }

  /** And the analyser records it with two paths in both runs, and with the cyclomatic numbers 0 and 1. */
  lemma {:induction false} SampleMeasured(fn: FunctionData, g: Graph)
    requires g == [[1], [2, 3], [3], [4], []]
    ensures MeasuredAs(fn, g, Measures(fn, 0, 2, 1, 2))
  {
    BranchCompiled();
    BranchMeasured(fn, g, IF_ASSIGNS);
  }

  /** In a file of the other byte order the numbers are swapped and the bytes of a string are not. */
  lemma {:induction false} SwappedRead(f: File)
    requires f == [0x0200_0000, 0x6e69_616d, 0, 0x0100_0000, 0x0300_0000]
    ensures StringAt(f, true, START) == Text(MAIN)
    ensures AfterString(f, true, START) == START.(pos := 3)
    ensures CounterAt(f, true, START.(pos := 3)) == 0x3_0000_0001
  {
    OfByte(2, 2, 2);
    assert Swap(0x0200_0000) == 2 && Swap(0x0100_0000) == 1 && Swap(0x0300_0000) == 3;
    MainWords();
    assert NoZero(MAIN);
    StringRoundTrip(MAIN);
    assert f[1..3] == [0x6e69_616d, 0];
  }

  /** A summary in literal words: checksum, number of counters, number of runs, and three sums. */
  lemma {:induction false} SummaryRead(f: File)
    requires f == [9, 1, 2, 3, 4, 5, 6, 7, 8]
    ensures SummaryAt(f, false, START)
      == Summary(9, CounterSummary(1, 2, 0x4_0000_0003, 0x6_0000_0005, 0x8_0000_0007))
    ensures AfterSummary(f, START) == START.(pos := 9)
  {
    var c1, c3, c5, c7 := START.(pos := 1), START.(pos := 3), START.(pos := 5), START.(pos := 7);
    ReadsInside(f, c1, 1, 2);
    ReadsInside(f, c3, 2, 1);
    ReadsInside(f, c3, 2, 2);
    ReadsInside(f, c3, 2, 3);
    assert CounterAt(f, false, c3) == 0x4_0000_0003;
    assert CounterAt(f, false, c5) == 0x6_0000_0005 && CounterAt(f, false, c7) == 0x8_0000_0007;
  }
}
