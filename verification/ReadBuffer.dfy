/** The growable read buffer of gcov-io.c: words are fetched from the file in blocks, the unread rest
    is moved to the front, and the buffer grows on demand. */
module ReadBuffer {
  import opened Words
  import opened Cursors
  import opened Records

  const BLOCK_SIZE: nat := 0x400

  class GcovVar {
    /** The file, and the position of its stream in words. */
    const file: File
    var filePos: nat
    var start: nat
    var offset: nat
    var length: nat
    var overread: nat
    var mode: int
    var endian: bool
    var buffer: array<Word>

    ghost predicate Valid()
      reads this, buffer
    {
      && offset <= length <= buffer.Length < MAX_WORDS
      && start + offset < MAX_WORDS && overread < TWO_32 && mode > 0
      && (if start + length == filePos
          then length > 0 ==> filePos <= |file| && buffer[..length] == file[start..filePos]
          else length == 0 && start < |file| == filePos)
    }

    ghost function View(): Cursor
      reads this
    {
      Cursor(start + offset, start + length != filePos, overread)
    }

    /** gcov_open on an existing file. */
    constructor (f: File)
      ensures Valid() && View() == START && file == f && !endian && fresh(buffer)
    {
      file := f;
      filePos, start, offset, length := 0, 0, 0, 0;
      overread := TWO_32 - 1;
      mode := 1;
      endian := false;
      buffer := new Word[0];
    }

    function Position(): nat
      reads this
    {
      start + offset
    }

    /** The buffer that a request of so many words needs stays below 2^30 words, where the 32-bit byte
        count of the refill begins to wrap. */
    ghost predicate Fits(words: nat)
      reads this
    {
      var needed := length - offset + words;
      words <= length - offset || needed <= buffer.Length || Grown(buffer.Length, needed) < MAX_WORDS
    }

    lemma SmallFits(words: nat)
      requires Valid() && Small(file, words)
      ensures Fits(words)
    {
      var needed := length - offset + words;
      if length - offset < words && buffer.Length < needed {
        assert length <= |file|;
        assert Grown(buffer.Length, needed) < if buffer.Length == 0 then MAX_WORDS else 4 * needed;
      }
    }

    /** gcov_allocate: the new buffer keeps the old words. */
    method Allocate(words: nat)
      requires buffer.Length < words
      modifies this`buffer
      ensures fresh(buffer) && words <= buffer.Length == Grown(old(buffer.Length), words)
      ensures old(buffer.Length) <= buffer.Length && buffer[..old(buffer.Length)] == old(buffer[..])
    {
      var newSize := buffer.Length;
      if newSize == 0 {
        newSize := BLOCK_SIZE;
      }
      newSize := (newSize + words) * 2;
      var was := buffer;
      buffer := new Word[newSize](i requires 0 <= i < newSize reads was => if i < was.Length then was[i] else 0);
    }

    /** Move the unread words to the front of the buffer. */
    method Compact()
      requires Valid()
      modifies this`start, this`offset, this`length, buffer
      ensures Valid() && View() == old(View())
      ensures offset == 0 && length == old(length - offset)
    {
      var excess := length - offset;
      start := start + offset;
      forall i | 0 <= i < excess {
        buffer[i] := buffer[offset + i];
      }
      assert buffer[..excess] == old(buffer[..length])[offset..];
      offset := 0;
      length := excess;
    }

    /** The next `got` words of the file, behind the words that are in the buffer. */
    method Fread(got: nat)
      requires length + got <= buffer.Length && (got > 0 ==> filePos + got <= |file|)
      modifies buffer
      ensures buffer[..length] == old(buffer[..length])
      ensures got > 0 ==> buffer[..length + got] == old(buffer[..length]) + file[filePos..filePos + got]
    {
      forall i | 0 <= i < got {
        buffer[length + i] := file[filePos + i];
      }
    }

    /** fread behind the words in the buffer: as many as the 32-bit byte count asks for and the file
        still has. */
    method Fill()
      requires Valid() && offset == 0
      modifies this`filePos, this`length, buffer
      ensures Valid() && View() == old(View())
      ensures length == buffer.Length || |file| <= filePos
    {
      var excess := buffer.Length - length;
      var bytes := excess * 4 % TWO_32;
      var got := if filePos < |file| then Least(bytes / 4, |file| - filePos) else 0;
      Fread(got);
      if got > 0 {
        SliceJoin(file, start, filePos, filePos + got);
      }
      filePos := filePos + got;
      length := length + got;
    }

    /** Fetch until the buffer holds `words` unread words or the file ends. */
    method Refill(words: nat)
      requires Valid() && length - offset < words && Fits(words)
      modifies this`start, this`offset, this`length, this`filePos, this`buffer, buffer
      ensures Valid() && (buffer == old(buffer) || fresh(buffer))
      ensures View() == old(View())
      ensures offset == 0 && (words <= length || |file| <= filePos)
    {
      Compact();
      if length + words > buffer.Length {
        Allocate(length + words);
        assert buffer[..length] == old(buffer)[..length];
      }
      Fill();
    }

    /** The unread words in the buffer are those of the file. */
    lemma Pointed(words: nat)
      requires Valid() && 0 < words <= length - offset
      ensures start + offset + words <= |file| && start + length == filePos
      ensures buffer[offset..offset + words] == file[start + offset..start + offset + words]
    {
      var lo, hi := offset, offset + words;
      assert start + length == filePos && buffer[..length] == file[start..filePos];
      SliceOfSlice(buffer[..], 0, length, lo, hi);
      assert buffer[..][0..length] == buffer[..length];
      SliceOfSlice(file, start, filePos, lo, hi);
    }

    /** A read past the end of the file: note the overread, drop the words that were left. */
    method Overread(words: nat)
      requires Valid() && offset == 0 && length < words && |file| <= filePos
      modifies this`length, this`overread
      ensures Valid() && View() == AfterRead(file, old(View()), words)
      ensures WordsAt(file, old(View()), words) == None
    {
      overread := (overread + words - length) % TWO_32;
      length := 0;
    }

    /** A pointer to the next `words` words, as an index into the buffer, or nothing past the end. */
    method ReadWords(words: nat) returns (result: Option<nat>)
      requires Valid() && Fits(words)
      modifies this`start, this`offset, this`length, this`filePos, this`overread, this`buffer, buffer
      ensures Valid() && (buffer == old(buffer) || fresh(buffer))
      ensures View() == AfterRead(file, old(View()), words)
      ensures result.Some? ==> result.value + words <= buffer.Length
      ensures WordsAt(file, old(View()), words) ==
        if result.Some? then Some(buffer[result.value..result.value + words]) else None
    {
      if length - offset < words {
        Refill(words);
        if length < words {
          Overread(words);
          return None;
        }
      }
      var at := Take(words);
      result := Some(at);
    }

    /** The next words are in the buffer. */
    method Take(words: nat) returns (at: nat)
      requires Valid() && words <= length - offset
      modifies this`offset
      ensures Valid() && at + words <= buffer.Length && View() == AfterRead(file, old(View()), words)
      ensures WordsAt(file, old(View()), words) == Some(buffer[at..at + words])
    {
      at := offset;
      if words > 0 {
        Pointed(words);
      } else {
        assert buffer[at..at + words] == [];
      }
      offset := offset + words;
    }

    method ReadUnsigned() returns (value: Word)
      requires Valid()
      modifies this`start, this`offset, this`length, this`filePos, this`overread, this`buffer, buffer
      ensures Valid() && (buffer == old(buffer) || fresh(buffer))
      ensures View() == AfterRead(file, old(View()), 1)
      ensures value == UnsignedAt(file, endian, old(View()))
    {
      var at := ReadWords(1);
      if at == None {
        return 0;
      }
      value := FromFile(buffer[at.value], endian);
    }

    method ReadCounter() returns (value: bv64)
      requires Valid()
      modifies this`start, this`offset, this`length, this`filePos, this`overread, this`buffer, buffer
      ensures Valid() && (buffer == old(buffer) || fresh(buffer))
      ensures View() == AfterRead(file, old(View()), 2)
      ensures value == CounterAt(file, endian, old(View()))
    {
      var at := ReadWords(2);
      if at == None {
        return 0;
      }
      value := Counter(FromFile(buffer[at.value], endian), FromFile(buffer[at.value + 1], endian));
    }

    method ReadSums() returns (a: bv64, b: bv64, c: bv64)
      requires Valid()
      modifies this`start, this`offset, this`length, this`filePos, this`overread, this`buffer, buffer
      ensures Valid() && (buffer == old(buffer) || fresh(buffer))
      ensures View() == old(AfterRead(file, AfterRead(file, AfterRead(file, View(), 2), 2), 2))
      ensures a == CounterAt(file, endian, old(View()))
      ensures b == CounterAt(file, endian, old(AfterRead(file, View(), 2)))
      ensures c == CounterAt(file, endian, old(AfterRead(file, AfterRead(file, View(), 2), 2)))
    {
      a := ReadCounter();
      b := ReadCounter();
      c := ReadCounter();
    }

    method ReadCtrs() returns (ctrs: CounterSummary)
      requires Valid()
      modifies this`start, this`offset, this`length, this`filePos, this`overread, this`buffer, buffer
      ensures Valid() && (buffer == old(buffer) || fresh(buffer))
      ensures View() == AfterCtrs(file, old(View()))
      ensures ctrs == CtrsAt(file, endian, old(View()))
    {
      ReadsInARow(file, View());
      var num := ReadUnsigned();
      var runs := ReadUnsigned();
      var sumAll, runMax, sumMax := ReadSums();
      ctrs := CounterSummary(num, runs, sumAll, runMax, sumMax);
    }

    /** gcov_read_summary, for the one summable kind of counter. */
    method ReadSummary() returns (summary: Summary)
      requires Valid()
      modifies this`start, this`offset, this`length, this`filePos, this`overread, this`buffer, buffer
      ensures Valid() && (buffer == old(buffer) || fresh(buffer))
      ensures View() == AfterSummary(file, old(View()))
      ensures summary == SummaryAt(file, endian, old(View()))
    {
      var checksum := ReadUnsigned();
      var ctrs := ReadCtrs();
      summary := Summary(checksum, ctrs);
    }

    /** The C string behind the returned pointer, which lives until the next read. */
    method ReadString() returns (text: Text)
      requires Valid()
      modifies this`start, this`offset, this`length, this`filePos, this`overread, this`buffer, buffer
      ensures Valid() && (buffer == old(buffer) || fresh(buffer))
      ensures View() == AfterString(file, endian, old(View()))
      ensures text == StringAt(file, endian, old(View()))
    {
      var word := ReadUnsigned();
      text := ReadText(Value(word));
    }

    method ReadText(words: nat) returns (text: Text)
      requires Valid()
      modifies this`start, this`offset, this`length, this`filePos, this`overread, this`buffer, buffer
      ensures Valid() && (buffer == old(buffer) || fresh(buffer))
      ensures View() == AfterText(file, old(View()), words)
      ensures text == TextAt(file, old(View()), words)
    {
      if words == 0 {
        return Null;
      }
      if !Small(file, words) {
        return Oversize;
      }
      SmallFits(words);
      var at := ReadWords(words);
      if at == None {
        return Null;
      }
      text := Text(CString(MemoryOf(buffer[at.value..at.value + words])));
    }

    /** Reset to a known position: inside the buffer if it is there, by seeking otherwise. */
    method Sync(base: nat, len: nat)
      requires Valid() && base < TWO_32 && len < TWO_32
      modifies this`start, this`offset, this`length, this`filePos
      ensures Valid() && View() == AfterSync(old(View()), base, len)
    {
      var target := (base + len) % TWO_32;
      SyncTestExact(target, start, length);
      if (target - start) % TWO_32 <= length {
        offset := target - start;
      } else {
        SeekLanding(target);
        offset, length := 0, 0;
        var bytes := target * 4 % TWO_32;
        filePos := bytes / 4;
        start := filePos;
      }
    }

    /** gcov_close: the buffer is released. */
    method Close()
      modifies this`length, this`buffer, this`mode
      ensures mode == 0 && length == 0 && buffer.Length == 0 && fresh(buffer)
    {
      length := 0;
      buffer := new Word[0];
      mode := 0;
    }

    /** gcov_magic: recognise the magic in either byte order, and remember the order. */
    method CheckMagicWord(magic: Word, expected: Word) returns (m: Magic)
      requires Valid()
      modifies this`endian
      ensures Valid() && m == CheckMagic(magic, expected)
      ensures endian == (old(endian) || m == OtherOrder)
    {
      if magic == expected {
        return SameOrder;
      }
      if Swap(magic) == expected {
        endian := true;
        return OtherOrder;
      }
      m := Mismatch;
    }
  }

  lemma SliceOfSlice(f: seq<Word>, a: nat, b: nat, lo: nat, hi: nat)
    requires a <= b <= |f| && lo <= hi <= b - a
    ensures f[a..b][lo..hi] == f[a + lo..a + hi]
  {
    assert forall i :: 0 <= i < hi - lo ==> f[a..b][lo..hi][i] == f[a..b][lo + i] == f[a + lo + i];
  }

  lemma SliceJoin(f: seq<Word>, a: nat, b: nat, c: nat)
    requires a <= b <= c <= |f|
    ensures f[a..c] == f[a..b] + f[b..c]
  {
  }

  function Least(a: nat, b: nat): nat { if a < b then a else b }

  /** The size that gcov_allocate gives a buffer of `alloc` words for a request. */
  function Grown(alloc: nat, words: nat): nat {
    ((if alloc == 0 then BLOCK_SIZE else alloc) + words) * 2
  }

  /** The buffer more than doubles, and holds twice the request; the first one has a block to spare. */
  lemma GrownDoubles(alloc: nat, words: nat)
    ensures words > 0 ==> Grown(alloc, words) > 2 * alloc
    ensures alloc > 0 ==> Grown(alloc, words) == 2 * alloc + 2 * words
    ensures Grown(0, words) == 2 * 1024 + 2 * words
  {
  }

  lemma ReadsInARow(f: File, c: Cursor)
    ensures var c1 := AfterRead(f, c, 1); var c2 := AfterRead(f, c1, 1); var c4 := AfterRead(f, c2, 2);
      AfterReads(f, c, 1, 2) == c2 && AfterCtrs(f, c) == AfterRead(f, AfterRead(f, c4, 2), 2)
  {
    var c1 := AfterRead(f, c, 1);
    var c2 := AfterRead(f, c1, 1);
    var c4 := AfterRead(f, c2, 2);
    assert AfterReads(f, c, 1, 2) == AfterReads(f, c1, 1, 1) == AfterReads(f, c2, 1, 0);
    assert AfterReads(f, c2, 2, 3) == AfterReads(f, c4, 2, 2) == AfterReads(f, AfterRead(f, c4, 2), 2, 1);
  }
}
