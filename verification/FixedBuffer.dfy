/** The run-time variant of the stream: one array of 1025 words serves all reads and writes of one
    and two words. Writing refines a plain random-access file, reading refines the cursor. */
module FixedBuffer {
  import opened Words
  import opened Cursors
  import opened Records
  import opened ReadBuffer

  // ---------- a plain file

  /** The file f after w is written at position p; a gap reads as zeros. */
  function Overlay(f: seq<Word>, p: nat, w: seq<Word>): seq<Word> {
    if w == [] then f
    else if |f| < p then f + Repeat(0, p - |f|) + w
    else f[..p] + w + if p + |w| < |f| then f[p + |w|..] else []
  }

  lemma OverlayAt(f: seq<Word>, p: nat, w: seq<Word>)
    requires w != []
    ensures |Overlay(f, p, w)| == if p + |w| < |f| then |f| else p + |w|
    ensures forall i :: 0 <= i < |Overlay(f, p, w)| ==>
      Overlay(f, p, w)[i] == (if p <= i < p + |w| then w[i - p] else if i < |f| then f[i] else 0)
  {
  }

  lemma SameWords(x: seq<Word>, y: seq<Word>)
    requires |x| == |y| && forall i :: 0 <= i < |x| ==> x[i] == y[i]
    ensures x == y
  {
  }

  lemma OverlayAppends(f: seq<Word>, p: nat, a: seq<Word>, b: seq<Word>)
    ensures Overlay(Overlay(f, p, a), p + |a|, b) == Overlay(f, p, a + b)
  {
    if a == [] {
      assert a + b == b;
    } else if b == [] {
      assert a + b == a;
    } else {
      var x, y := Overlay(Overlay(f, p, a), p + |a|, b), Overlay(f, p, a + b);
      OverlayAt(f, p, a);
      OverlayAt(Overlay(f, p, a), p + |a|, b);
      OverlayAt(f, p, a + b);
      SameWords(x, y);
    }
  }

  /** A file and a position in it. */
  datatype Plain = Plain(content: seq<Word>, pos: nat)

  function Written(s: Plain, w: seq<Word>): Plain {
    Plain(Overlay(s.content, s.pos, w), s.pos + |w|)
  }

  const SUMMARY_LENGTH: Word := OfNat(1 + 1 * (2 + 3 * 2))

  /** The run-time library writes no strings. */
  predicate Numeric(items: seq<Item>) {
    forall i :: 0 <= i < |items| ==> !items[i].Str?
  }

  function NumericLength(items: seq<Item>): nat {
    if items == [] then 0 else (if items[0].Count? then 2 else 1) + NumericLength(items[1..])
  }

  lemma {:induction false} NumericLengthIs(items: seq<Item>)
    requires Numeric(items)
    ensures ValidItems(items) && |ItemsWords(items, false)| == NumericLength(items)
  {
    if items != [] {
      NumericLengthIs(items[1..]);
    }
  }

  ghost predicate NumericRecords(rs: seq<Record>) {
    ValidRecords(rs) && forall i :: 0 <= i < |rs| ==> Numeric(rs[i].items)
  }

  class LibgcovVar {
    var file: seq<Word>
    var filePos: nat
    var start: nat
    var offset: nat
    var length: nat
    var overread: nat
    var mode: int
    const buffer: array<Word>

    ghost predicate Reading()
      reads this, buffer
    {
      && buffer.Length == BLOCK_SIZE + 1 && mode > 0 && |file| < MAX_WORDS
      && offset <= length <= buffer.Length && start + offset < MAX_WORDS && overread < TWO_32
      && (if start + length == filePos
          then length > 0 ==> filePos <= |file| && buffer[..length] == file[start..filePos]
          else length == 0 && start < |file| == filePos)
    }

    ghost function View(): Cursor
      reads this
    {
      Cursor(start + offset, start + length != filePos, overread)
    }

    /** While writing, the file and the pending words in the buffer form one plain file. */
    ghost predicate Writing()
      reads this, buffer
    {
      buffer.Length == BLOCK_SIZE + 1 && mode < 0 && filePos == start && offset <= BLOCK_SIZE + 1
    }

    ghost function Whole(): Plain
      reads this, buffer
      requires offset <= buffer.Length
    {
      Plain(Overlay(file, start, buffer[..offset]), start + offset)
    }

    /** gcov_open: the file is opened for reading first. */
    constructor (f: File)
      ensures Reading() && View() == START && file == f && fresh(buffer)
    {
      file := f;
      filePos, start, offset, length := 0, 0, 0, 0;
      overread := TWO_32 - 1;
      mode := 1;
      buffer := new Word[BLOCK_SIZE + 1];
    }

    /** gcov_rewrite: from reading to writing at the beginning of the file. */
    method Rewrite()
      requires Reading()
      modifies this`mode, this`start, this`offset, this`filePos
      ensures Writing() && Whole() == Plain(file, 0)
    {
      mode := -1;
      start := 0;
      offset := 0;
      filePos := 0;
    }

    /** Write out the first `size` words of the buffer. */
    method WriteBlock(size: nat)
      requires Writing() && 0 < size <= offset
      modifies this`file, this`filePos, this`start, this`offset
      ensures Writing() && start == old(start) + size && offset == old(offset) - size
      ensures file == Overlay(old(file), old(start), buffer[..size])
    {
      file := Overlay(file, filePos, buffer[..size]);
      filePos := filePos + size;
      start := start + size;
      offset := offset - size;
    }

    /** Room for one or two words: at index `at` of the buffer, behind everything pending. */
    method WriteWords(words: nat) returns (at: nat)
      requires Writing() && 1 <= words <= 2
      modifies this`file, this`filePos, this`start, this`offset, buffer
      ensures Writing() && offset == at + words <= BLOCK_SIZE + 1
      ensures Plain(Overlay(file, start, buffer[..at]), start + at) == old(Whole())
    {
      if offset >= BLOCK_SIZE {
        OverlayAppends(file, start, buffer[..BLOCK_SIZE], buffer[BLOCK_SIZE..offset]);
        assert buffer[..offset] == buffer[..BLOCK_SIZE] + buffer[BLOCK_SIZE..offset];
        WriteBlock(BLOCK_SIZE);
        if offset != 0 {
          assert offset == 1;
          buffer[0] := buffer[BLOCK_SIZE];
          assert buffer[..offset] == old(buffer[BLOCK_SIZE..offset]);
        }
      }
      at := offset;
      offset := offset + words;
    }

    method WriteUnsigned(value: Word)
      requires Writing()
      modifies this`file, this`filePos, this`start, this`offset, buffer
      ensures Writing() && Whole() == Written(old(Whole()), [value])
    {
      var at := WriteWords(1);
      buffer[at] := value;
      assert buffer[..offset] == buffer[..at] + [value];
      OverlayAppends(file, start, buffer[..at], [value]);
    }

    method WritePair(first: Word, second: Word)
      requires Writing()
      modifies this`file, this`filePos, this`start, this`offset, buffer
      ensures Writing() && Whole() == Written(old(Whole()), [first, second])
    {
      var at := WriteWords(2);
      ghost var pending := buffer[..at];
      buffer[at] := first;
      buffer[at + 1] := second;
      assert buffer[..offset] == pending + [first, second];
      OverlayAppends(file, start, pending, [first, second]);
    }

    method WriteCounter(value: bv64)
      requires Writing()
      modifies this`file, this`filePos, this`start, this`offset, buffer
      ensures Writing() && Whole() == Written(old(Whole()), ItemWords(Count(value), false))
    {
      WritePair(LowWord(value), HighWord(value));
    }

    method WriteTagLength(tag: Word, len: Word)
      requires Writing()
      modifies this`file, this`filePos, this`start, this`offset, buffer
      ensures Writing() && Whole() == Written(old(Whole()), [tag, len])
    {
      WritePair(tag, len);
    }

    method WriteCtrSummary(c: CounterSummary)
      requires Writing()
      modifies this`file, this`filePos, this`start, this`offset, buffer
      ensures Writing() && Whole() == Written(old(Whole()), ItemsWords(CtrItems(c), false))
    {
      ghost var w := Whole();
      WriteUnsigned(c.num);
      WriteUnsigned(c.runs);
      ghost var done := Joined(w, [c.num], [c.runs]);
      WriteCounter(c.sumAll);
      done := Joined(w, done, ItemWords(Count(c.sumAll), false));
      WriteCounter(c.runMax);
      done := Joined(w, done, ItemWords(Count(c.runMax), false));
      WriteCounter(c.sumMax);
      done := Joined(w, done, ItemWords(Count(c.sumMax), false));
      CtrWords(c);
    }

    /** A summary record: the announced length is the number of words that follow the header. */
    method WriteSummary(tag: Word, s: Summary)
      requires Writing()
      modifies this`file, this`filePos, this`start, this`offset, buffer
      ensures Writing()
      ensures var body := ItemsWords(SummaryItems(s), false);
        Whole() == Written(old(Whole()), [tag, OfNat(|body|)] + body)
    {
      ghost var w := Whole();
      WriteTagLength(tag, SUMMARY_LENGTH);
      WriteUnsigned(s.checksum);
      WriteCtrSummary(s.ctrs);
      SummaryJoined(w, tag, s);
    }

    // ---------- the calling pattern: header, numbers and counters

    method WriteItem(i: Item)
      requires Writing() && !i.Str?
      modifies this`file, this`filePos, this`start, this`offset, buffer
      ensures Writing() && Whole() == Written(old(Whole()), ItemWords(i, false))
    {
      match i {
        case Num(n) => WriteUnsigned(n);
        case Count(c) => WriteCounter(c);
      }
    }

    /** Any run of numbers and counters is written as all their words in order. */
    method WriteItems(items: seq<Item>)
      requires Writing() && Numeric(items)
      modifies this`file, this`filePos, this`start, this`offset, buffer
      ensures Writing() && ValidItems(items) && Whole() == Written(old(Whole()), ItemsWords(items, false))
    {
      ghost var all := Written(Whole(), ItemsWords(items, false));
      var k := 0;
      NumericLengthIs(items);
      assert items[0..] == items;
      while k < |items|
        invariant k <= |items| && Writing()
        invariant Written(Whole(), ItemsWords(items[k..], false)) == all
      {
        ItemsStep(items, k, []);
        WrittenInTwo(Whole(), ItemWords(items[k], false), ItemsWords(items[k + 1..], false));
        WriteItem(items[k]);
        k := k + 1;
      }
      assert items[k..] == [];
    }

    method WriteRecord(r: Record)
      requires Writing() && ValidRecord(r) && Numeric(r.items)
      modifies this`file, this`filePos, this`start, this`offset, buffer
      ensures Writing() && Whole() == Written(old(Whole()), RecordWords(r, false))
    {
      ghost var w := Whole();
      NumericLengthIs(r.items);
      var len := OfNat(NumericLength(r.items));
      WriteTagLength(r.tag, len);
      WriteItems(r.items);
      ghost var done := Joined(w, [r.tag, len], ItemsWords(r.items, false));
    }

    method WriteRecords(rs: seq<Record>)
      requires Writing() && NumericRecords(rs)
      modifies this`file, this`filePos, this`start, this`offset, buffer
      ensures Writing() && Whole() == Written(old(Whole()), RecordsWords(rs, false))
    {
      ghost var all := Written(Whole(), RecordsWords(rs, false));
      var k := 0;
      assert rs[0..] == rs;
      while k < |rs|
        invariant k <= |rs| && Writing()
        invariant Written(Whole(), RecordsWords(rs[k..], false)) == all
      {
        RecordsStep(rs, k, []);
        WrittenInTwo(Whole(), RecordWords(rs[k], false), RecordsWords(rs[k + 1..], false));
        WriteRecord(rs[k]);
        k := k + 1;
      }
      assert rs[k..] == [];
    }

    /** A whole new file, written and closed, reads back as the records that were given. */
    method WriteFile(rs: seq<Record>)
      requires Writing() && Whole() == Plain([], 0) && NumericRecords(rs)
      modifies this`file, this`filePos, this`start, this`offset, this`length, this`mode, buffer
      ensures file == RecordsWords(rs, false)
      ensures |file| < MAX_WORDS ==> RecordsMatch(file, false, START, rs)
    {
      WriteRecords(rs);
      Close();
      if |file| < MAX_WORDS {
        RecordsReadBack(file, false, START, rs);
      }
    }

    method Seek(base: nat)
      requires Writing() && base < TWO_32
      modifies this`file, this`filePos, this`start, this`offset
      ensures Writing() && Whole() == Plain(old(Whole()).content, base % MAX_WORDS)
    {
      if offset != 0 {
        WriteBlock(offset);
      }
      SeekLanding(base);
      filePos := base * 4 % TWO_32 / 4;
      start := filePos;
    }

    /** After closing, the file holds everything that was written; reading has not changed it. */
    method Close()
      requires Writing() || Reading()
      modifies this`file, this`filePos, this`start, this`offset, this`length, this`mode
      ensures mode == 0 && length == 0
      ensures file == if old(Writing()) then old(Whole()).content else old(file)
    {
      if offset != 0 && mode < 0 {
        WriteBlock(offset);
      }
      length := 0;
      mode := 0;
    }

    // ---------- reading

    method Overread(words: nat)
      requires Reading() && offset == 0 && length < words && |file| <= filePos
      modifies this`length, this`overread
      ensures Reading() && View() == AfterRead(file, old(View()), words)
      ensures WordsAt(file, old(View()), words) == None
    {
      overread := (overread + words - length) % TWO_32;
      length := 0;
    }

    /** The pointer to the next one or two words; the fixed array always has room for a block behind
        the at most one word that is left. */
    method ReadWords(words: nat) returns (result: Option<nat>)
      requires Reading() && 1 <= words <= 2
      modifies this`start, this`offset, this`length, this`filePos, this`overread, buffer
      ensures Reading() && View() == AfterRead(file, old(View()), words)
      ensures result.Some? ==> result.value + words <= buffer.Length
      ensures WordsAt(file, old(View()), words) ==
        if result.Some? then Some(buffer[result.value..result.value + words]) else None
    {
      ghost var c := View();
      var excess := length - offset;
      if excess < words {
        Refill();
        assert View() == c;
        if length < words {
          Overread(words);
          return None;
        }
      }
      result := Some(offset);
      Pointed(words);
      assert words <= Available(file, c) && c.pos == start + offset;
      offset := offset + words;
    }

    method ReadUnsigned() returns (value: Word)
      requires Reading()
      modifies this`start, this`offset, this`length, this`filePos, this`overread, buffer
      ensures Reading() && View() == AfterRead(file, old(View()), 1)
      ensures value == UnsignedAt(file, false, old(View()))
    {
      var at := ReadWords(1);
      if at == None {
        return 0;
      }
      value := buffer[at.value];
    }

    method ReadCounter() returns (value: bv64)
      requires Reading()
      modifies this`start, this`offset, this`length, this`filePos, this`overread, buffer
      ensures Reading() && View() == AfterRead(file, old(View()), 2)
      ensures value == CounterAt(file, false, old(View()))
    {
      var at := ReadWords(2);
      if at == None {
        return 0;
      }
      value := Counter(buffer[at.value], buffer[at.value + 1]);
    }

    method ReadSums() returns (a: bv64, b: bv64, c: bv64)
      requires Reading()
      modifies this`start, this`offset, this`length, this`filePos, this`overread, buffer
      ensures Reading() && View() == old(AfterRead(file, AfterRead(file, AfterRead(file, View(), 2), 2), 2))
      ensures a == CounterAt(file, false, old(View()))
      ensures b == CounterAt(file, false, old(AfterRead(file, View(), 2)))
      ensures c == CounterAt(file, false, old(AfterRead(file, AfterRead(file, View(), 2), 2)))
    {
      a := ReadCounter();
      b := ReadCounter();
      c := ReadCounter();
    }

    method ReadCtrs() returns (ctrs: CounterSummary)
      requires Reading()
      modifies this`start, this`offset, this`length, this`filePos, this`overread, buffer
      ensures Reading() && View() == AfterCtrs(file, old(View())) && ctrs == CtrsAt(file, false, old(View()))
    {
      ReadsInARow(file, View());
      var num := ReadUnsigned();
      var runs := ReadUnsigned();
      var sumAll, runMax, sumMax := ReadSums();
      ctrs := CounterSummary(num, runs, sumAll, runMax, sumMax);
    }

    /** gcov_read_summary, when the run-time library merges into an existing file. */
    method ReadSummary() returns (summary: Summary)
      requires Reading()
      modifies this`start, this`offset, this`length, this`filePos, this`overread, buffer
      ensures Reading() && View() == AfterSummary(file, old(View())) && summary == SummaryAt(file, false, old(View()))
    {
      var checksum := ReadUnsigned();
      var ctrs := ReadCtrs();
      summary := Summary(checksum, ctrs);
    }

    /** Move the word that is left, if any, to the front. */
    method Compact()
      requires Reading() && length - offset <= 1
      modifies this`start, this`offset, this`length, buffer
      ensures Reading() && View() == old(View())
      ensures offset == 0 && length == old(length - offset) <= 1
    {
      var excess := length - offset;
      start := start + offset;
      if excess != 0 {
        assert excess == 1;
        assert buffer[offset] == buffer[..length][offset] == file[start];
        buffer[0] := buffer[offset];
      }
      offset := 0;
      length := excess;
    }

    /** Read one block behind it. */
    method Refill()
      requires Reading() && length - offset <= 1
      modifies this`start, this`offset, this`length, this`filePos, buffer
      ensures Reading() && View() == old(View())
      ensures offset == 0 && (2 <= length || |file| <= filePos)
    {
      Compact();
      Fill();
    }

    /** The next `got` words of the file, behind the words that are in the buffer. */
    method Fread(got: nat)
      requires length + got <= buffer.Length && filePos < MAX_WORDS
      requires got > 0 ==> filePos + got <= |file|
      modifies buffer
      ensures buffer[..length] == old(buffer[..length])
      ensures got > 0 ==> buffer[..length + got] == old(buffer[..length]) + file[filePos..filePos + got]
    {
      forall i | 0 <= i < got {
        buffer[length + i] := file[filePos + i];
      }
    }

    method Fill()
      requires Reading() && offset == 0 && length <= 1
      modifies this`length, this`filePos, buffer
      ensures Reading() && View() == old(View())
      ensures 2 <= length || |file| <= filePos
    {
      var got := if filePos < |file| then Least(BLOCK_SIZE, |file| - filePos) else 0;
      Fread(got);
      if got > 0 {
        SliceJoin(file, start, filePos, filePos + got);
      }
      filePos := filePos + got;
      length := length + got;
    }

    lemma Pointed(words: nat)
      requires Reading() && 0 < words <= length - offset
      ensures start + offset + words <= |file| && start + length == filePos
      ensures buffer[offset..offset + words] == file[start + offset..start + offset + words]
    {
      var lo, hi := offset, offset + words;
      SliceOfSlice(buffer[..], 0, length, lo, hi);
      assert buffer[..][0..length] == buffer[..length];
      SliceOfSlice(file, start, filePos, lo, hi);
    }
  }

  /** Two writes in a row are one longer write. */
  ghost function Joined(s: Plain, a: seq<Word>, b: seq<Word>): (c: seq<Word>)
    ensures c == a + b && Written(Written(s, a), b) == Written(s, c)
  {
    OverlayAppends(s.content, s.pos, a, b);
    a + b
  }

  lemma {:induction false} WrittenInTwo(w: Plain, a: seq<Word>, b: seq<Word>)
    ensures Written(Written(w, a), b) == Written(w, a + b) == Written(w, [] + a + b)
  {
    var c := Joined(w, a, b);
    assert [] + a + b == a + b;
  }

  lemma SumWords(x: Item, y: Item, z: Item)
    requires x.Count? && y.Count? && z.Count?
    ensures ItemsWords([x, y, z], false) == ItemWords(x, false) + ItemWords(y, false) + ItemWords(z, false)
  {
    assert [x, y, z][1..] == [y, z] && [y, z][1..] == [z] && [z][1..] == [];
    assert ItemsWords([z], false) == ItemWords(z, false);
    assert ItemsWords([y, z], false) == ItemWords(y, false) + ItemWords(z, false);
  }

  lemma NumFirst(n: Word, rest: seq<Item>)
    requires ValidItems(rest)
    ensures ValidItems([Num(n)] + rest) && ItemsWords([Num(n)] + rest, false) == [n] + ItemsWords(rest, false)
  {
    assert ([Num(n)] + rest)[1..] == rest;
  }

  lemma Regrouped(a: seq<Word>, b: seq<Word>, c: seq<Word>, d: seq<Word>, e: seq<Word>)
    ensures a + (b + (c + d + e)) == a + b + c + d + e
  {
  }

  lemma CtrWords(c: CounterSummary)
    ensures ItemsWords(CtrItems(c), false) == [c.num] + [c.runs] + ItemWords(Count(c.sumAll), false)
      + ItemWords(Count(c.runMax), false) + ItemWords(Count(c.sumMax), false)
  {
    var x, y, z := Count(c.sumAll), Count(c.runMax), Count(c.sumMax);
    SumWords(x, y, z);
    NumFirst(c.runs, [x, y, z]);
    NumFirst(c.num, [Num(c.runs)] + [x, y, z]);
    assert CtrItems(c) == [Num(c.num)] + ([Num(c.runs)] + [x, y, z]);
    Regrouped([c.num], [c.runs], ItemWords(x, false), ItemWords(y, false), ItemWords(z, false));
  }

  lemma SummaryWords(s: Summary)
    ensures var body := ItemsWords(SummaryItems(s), false);
      |body| == 9 && body == [s.checksum] + ItemsWords(CtrItems(s.ctrs), false)
  {
    assert SummaryItems(s)[1..] == CtrItems(s.ctrs);
    CtrWords(s.ctrs);
  }

  lemma {:induction false} ThreeJoined(w: Plain, a: seq<Word>, b: seq<Word>, c: seq<Word>)
    ensures Written(Written(Written(w, a), b), c) == Written(w, a + (b + c))
  {
    var all := Joined(w, Joined(w, a, b), c);
    assert all == a + (b + c);
  }

  lemma {:induction false} SummaryJoined(w: Plain, tag: Word, s: Summary)
    ensures Written(Written(Written(w, [tag, SUMMARY_LENGTH]), [s.checksum]), ItemsWords(CtrItems(s.ctrs), false)) ==
      Written(w, [tag, OfNat(|ItemsWords(SummaryItems(s), false)|)] + ItemsWords(SummaryItems(s), false))
  {
    SummaryWords(s);
    ThreeJoined(w, [tag, SUMMARY_LENGTH], [s.checksum], ItemsWords(CtrItems(s.ctrs), false));
  }
}
