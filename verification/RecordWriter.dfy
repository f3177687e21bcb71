/** The compiler's side of the stream: an append-only growable buffer whose record lengths are filled
    in afterwards. Only the length of a finished record flushes. */
module RecordWriter {
  import opened Words
  import opened Cursors
  import opened ReadBuffer
  import opened Records

  /** Outside the run-time library there is no gcov_write_counter. */
  predicate NoCounters(items: seq<Item>) {
    forall i :: 0 <= i < |items| ==> !items[i].Count?
  }

  class GcovWriter {
    var file: seq<Word>
    var start: nat
    var offset: nat
    var mode: int
    var buffer: array<Word>

    ghost predicate Valid()
      reads this, buffer
    {
      mode < 0 && start == |file| && offset <= buffer.Length
    }

    /** Everything written so far, in the file or still in the buffer. */
    ghost function Stream(): seq<Word>
      reads this, buffer
      requires offset <= buffer.Length
    {
      file + buffer[..offset]
    }

    /** gcov_open on a new file. */
    constructor ()
      ensures Valid() && Stream() == [] && fresh(buffer)
    {
      file := [];
      start, offset := 0, 0;
      mode := -1;
      buffer := new Word[0];
    }

    method Allocate(words: nat)
      requires buffer.Length < words
      modifies this`buffer
      ensures fresh(buffer) && words <= buffer.Length == Grown(old(buffer.Length), words)
      ensures old(buffer.Length) <= buffer.Length && buffer[..old(buffer.Length)] == old(buffer[..])
    {
      var newSize := buffer.Length;
      if newSize == 0 {
        newSize := BLOCK_SIZE;
      }
      newSize := (newSize + words) * 2;
      var was := buffer;
      buffer := new Word[newSize](i requires 0 <= i < newSize reads was => if i < was.Length then was[i] else 0);
    }

    method WriteBlock(size: nat)
      requires Valid() && 0 < size == offset
      modifies this`file, this`start, this`offset
      ensures Valid() && offset == 0 && Stream() == file == old(Stream())
    {
      file := file + buffer[..size];
      start := start + size;
      offset := offset - size;
    }

    /** Room for `words` more words behind the pending ones. */
    method WriteWords(words: nat) returns (at: nat)
      requires Valid()
      modifies this`offset, this`buffer
      ensures Valid() && (buffer == old(buffer) || fresh(buffer))
      ensures at == old(offset) && offset == at + words && buffer[..at] == old(buffer[..offset])
    {
      if offset + words > buffer.Length {
        Allocate(offset + words);
        assert buffer[..offset] == old(buffer[..])[..offset];
      }
      at := offset;
      offset := offset + words;
    }

    method WriteUnsigned(value: Word)
      requires Valid()
      modifies this`offset, this`buffer, buffer
      ensures Valid() && (buffer == old(buffer) || fresh(buffer))
      ensures Stream() == old(Stream()) + [value]
    {
      ghost var pending := buffer[..offset];
      var at := WriteWords(1);
      buffer[at] := value;
      assert buffer[..offset] == pending + [value];
    }

    method WriteString(s: Option<Bytes>)
      requires Valid() && (s.Some? ==> |s.value| + 4 < TWO_32)
      modifies this`offset, this`buffer, buffer
      ensures Valid() && (buffer == old(buffer) || fresh(buffer))
      ensures Stream() == old(Stream()) + StringItem(s, false)
    {
      ghost var item := StringItem(s, false);
      var alloc := if s.Some? then (|s.value| + 4) / 4 else 0;
      var at := WriteWords(1 + alloc);
      ghost var pending := buffer[..at];
      StoreString(at, alloc, s);
      assert buffer[..offset] == pending + item;
    }

    /** The length in words, then the bytes. They are padded because the last word is zeroed first. */
    method StoreString(at: nat, alloc: nat, s: Option<Bytes>)
      requires at + 1 + alloc <= buffer.Length
      requires s.Some? ==> alloc == StringAlloc(|s.value|)
      requires s == None ==> alloc == 0
      modifies buffer
      ensures buffer[..at] == old(buffer[..at]) && buffer[at..at + 1 + alloc] == StringItem(s, false)
    {
      buffer[at] := OfNat(alloc);
      buffer[at + alloc] := 0;
      if s.Some? {
        ghost var head := buffer[..at + 1];
        CopyBytes(at + 1, s.value);
        assert buffer[..at] == head[..at] && buffer[at] == head[at];
        assert buffer[at..at + 1 + alloc] == [buffer[at]] + buffer[at + 1..at + 1 + alloc];
      } else {
        assert buffer[at..at + 1 + alloc] == [buffer[at]];
      }
    }

    /** memcpy of the bytes alone, over words whose last one is zero: what they leave of it is padding. */
    method CopyBytes(at: nat, s: Bytes)
      requires at + StringAlloc(|s|) <= buffer.Length && buffer[at + StringAlloc(|s|) - 1] == 0
      modifies buffer
      ensures buffer[..at] == old(buffer[..at]) && buffer[at..at + StringAlloc(|s|)] == StringWords(s)
    {
      var end := at + StringAlloc(|s|);
      ghost var was := MemoryOf(buffer[at..end]);
      var i := 0;
      while i < |s|
        invariant i <= |s| && buffer[..at] == old(buffer[..at])
        invariant MemoryOf(buffer[at..end]) == s[..i] + was[i..]
      {
        CopyByte(at, end, i, s[i]);
        StoredPrefix(s, was, i);
        i := i + 1;
      }
      assert s[..i] == s;
      CopiedWords(buffer[at..end], old(buffer[at..end]), s);
    }

    method CopyByte(at: nat, end: nat, i: nat, b: bv8)
      requires at <= end <= buffer.Length && i < 4 * (end - at)
      modifies buffer
      ensures buffer[..at] == old(buffer[..at])
      ensures MemoryOf(buffer[at..end]) == old(MemoryOf(buffer[at..end]))[i := b]
    {
      ghost var ws := buffer[at..end];
      var j, k := i / 4, i % 4;
      var w := WithByte(buffer[at + j], k, b);
      StoredInMemory(ws, j, k, b, w);
      buffer[at + j] := w;
      assert buffer[at..end] == ws[j := w];
    }

    method WithByte(w: Word, k: nat, b: bv8) returns (r: Word)
      requires k < 4
      ensures BytesOf(r) == BytesOf(w)[k := b]
    {
      ByteStored(w, k, b);
      r := StoreByte(w, k, b);
    }

    /** A tag with room for the record length; the position is for WriteLength. */
    method WriteTag(tag: Word) returns (position: nat)
      requires Valid()
      modifies this`offset, this`buffer, buffer
      ensures Valid() && (buffer == old(buffer) || fresh(buffer))
      ensures Stream() == old(Stream()) + [tag, 0]
      ensures start <= position == old(start + offset) == |old(Stream())| && position + 2 == start + offset
    {
      ghost var pending := buffer[..offset];
      position := start + offset;
      var at := WriteWords(2);
      buffer[at] := tag;
      buffer[at + 1] := 0;
      assert buffer[..offset] == pending + [tag, 0];
    }

    /** Fill in the length of the record at `position`, which must not have been flushed yet. */
    method WriteLength(position: nat)
      requires Valid() && position + 2 <= start + offset && start <= position
      modifies this`file, this`start, this`offset, buffer
      ensures Valid() && Stream() == old(Stream())[position + 1 := OfNat(|old(Stream())| - position - 2)]
      ensures if old(offset) >= 1024 then offset == 0 else offset == old(offset) && file == old(file)
    {
      ghost var before := Stream();
      var at := position - start;
      var length := offset - at - 2;
      buffer[at + 1] := OfNat(length);
      assert Stream() == before[position + 1 := OfNat(length)];
      if offset >= BLOCK_SIZE {
        WriteBlock(offset);
      }
    }

    /** After closing, the whole stream is in the file. */
    method Close()
      requires Valid()
      modifies this`file, this`start, this`offset, this`mode, this`buffer
      ensures mode == 0 && file == old(Stream())
    {
      if offset != 0 && mode < 0 {
        WriteBlock(offset);
      }
      buffer := new Word[0];
      mode := 0;
    }

    // ---------- the calling pattern: tag, items, length

    method WriteItem(i: Item)
      requires Valid() && ValidItem(i) && !i.Count?
      modifies this`offset, this`buffer, buffer
      ensures Valid() && (buffer == old(buffer) || fresh(buffer))
      ensures Stream() == old(Stream()) + ItemWords(i, false)
    {
      match i {
        case Num(n) => WriteUnsigned(n);
        case Str(s) => WriteString(s);
      }
    }

    method WriteItems(items: seq<Item>)
      requires Valid() && ValidItems(items) && NoCounters(items)
      modifies this`offset, this`buffer, buffer
      ensures Valid() && (buffer == old(buffer) || fresh(buffer))
      ensures Stream() == old(Stream()) + ItemsWords(items, false)
    {
      ghost var all := Stream() + ItemsWords(items, false);
      var k := 0;
      assert items[0..] == items;
      while k < |items|
        invariant k <= |items|
        invariant Valid() && (buffer == old(buffer) || fresh(buffer))
        invariant Stream() + ItemsWords(items[k..], false) == all
      {
        ItemsStep(items, k, Stream());
        WriteItem(items[k]);
        k := k + 1;
      }
      assert items[k..] == [];
    }

    /** The end of a record: the stream becomes what it was before, followed by the whole record. */
    method FinishRecord(position: nat, ghost before: seq<Word>, ghost r: Record)
      requires Valid() && ValidRecord(r) && start <= position == |before|
      requires Stream() == before + [r.tag, 0] + ItemsWords(r.items, false)
      modifies this`file, this`start, this`offset, buffer
      ensures Valid() && Stream() == before + RecordWords(r, false)
    {
      ghost var unfinished := Stream();
      WriteLength(position);
      LengthFilled(before, r.tag, ItemsWords(r.items, false), unfinished);
    }

    /** One record: the assertions of WriteLength hold because nothing in between flushes. */
    method WriteRecord(r: Record)
      requires Valid() && ValidRecord(r) && NoCounters(r.items)
      modifies this`file, this`start, this`offset, this`buffer, buffer
      ensures Valid() && (buffer == old(buffer) || fresh(buffer))
      ensures Stream() == old(Stream()) + RecordWords(r, false)
    {
      ghost var before := Stream();
      var position := WriteTag(r.tag);
      WriteItems(r.items);
      FinishRecord(position, before, r);
    }

    method WriteRecords(rs: seq<Record>)
      requires Valid() && ValidRecords(rs) && forall i :: 0 <= i < |rs| ==> NoCounters(rs[i].items)
      modifies this`file, this`start, this`offset, this`buffer, buffer
      ensures Valid() && (buffer == old(buffer) || fresh(buffer))
      ensures Stream() == old(Stream()) + RecordsWords(rs, false)
    {
      ghost var all := Stream() + RecordsWords(rs, false);
      var k := 0;
      assert rs[0..] == rs;
      while k < |rs|
        invariant k <= |rs|
        invariant Valid() && (buffer == old(buffer) || fresh(buffer))
        invariant Stream() + RecordsWords(rs[k..], false) == all
      {
        RecordsStep(rs, k, Stream());
        WriteRecord(rs[k]);
        k := k + 1;
      }
      assert rs[k..] == [];
    }

    /** A whole new file, written and closed, reads back as the records that were given. */
    method WriteFile(rs: seq<Record>)
      requires Valid() && Stream() == [] && ValidRecords(rs) && forall i :: 0 <= i < |rs| ==> NoCounters(rs[i].items)
      modifies this, buffer
      ensures file == RecordsWords(rs, false)
      ensures |file| < MAX_WORDS ==> RecordsMatch(file, false, START, rs)
    {
      WriteRecords(rs);
      Close();
      if |file| < MAX_WORDS {
        RecordsReadBack(file, false, START, rs);
      }
    }
  }

  lemma StoredPrefix(s: Bytes, was: Bytes, i: nat)
    requires i < |s| <= |was|
    ensures (s[..i] + was[i..])[i := s[i]] == s[..i + 1] + was[i + 1..]
  {
  }

  /** Words that hold the string, and behind it the bytes of words whose last one is zero. */
  lemma {:induction false} CopiedWords(ws: seq<Word>, was: seq<Word>, s: Bytes)
    requires |was| == StringAlloc(|s|) && was[|was| - 1] == 0
    requires MemoryOf(ws) == s + MemoryOf(was)[|s|..]
    ensures ws == StringWords(s)
  {
    LastWordZero(was, |s|);
    assert MemoryOf(ws) == Padded(s);
    MemoryPack(ws);
  }

  /** The bytes behind a string of n bytes lie in the last word, which is zero. */
  lemma {:induction false} LastWordZero(ws: seq<Word>, n: nat)
    requires |ws| == StringAlloc(n) && ws[|ws| - 1] == 0
    ensures MemoryOf(ws)[n..] == Repeat(0, 4 * StringAlloc(n) - n)
  {
    if |ws| == 1 {
      assert ws[1..] == [] && BytesOf(0) == [0, 0, 0, 0];
    } else {
      LastWordZero(ws[1..], n - 4);
      assert MemoryOf(ws)[n..] == MemoryOf(ws[1..])[n - 4..];
    }
  }

  lemma LengthFilled(before: seq<Word>, tag: Word, body: seq<Word>, unfinished: seq<Word>)
    requires unfinished == before + [tag, 0] + body
    ensures unfinished[|before| + 1 := OfNat(|unfinished| - |before| - 2)] ==
      before + ([tag, OfNat(|body|)] + body)
  {
  }
}
