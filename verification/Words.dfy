/** Single bytes as bit vectors and as numbers. */
module Octets {
  lemma ByteRoundTrip(n: nat)
    requires n < 256
    ensures (n as bv8) as int == n
  {
  }

  lemma ByteInjective(a: bv8, b: bv8)
    requires a as int == b as int
    ensures a == b
  {
  }

  lemma ByteNext(b: bv8)
    ensures b != 0xff ==> (b + 1) as int == b as int + 1
    ensures b == 0xff ==> b as int == 255
  {
  }
}

/** The 32-bit words of a gcov file: byte order, numeric values, 64-bit counters and packed strings. */
module Words {
  import opened Octets

  type Word = bv32

  datatype Option<+T> = None | Some(value: T)

  const TWO_32: nat := 0x1_0000_0000

  // ---------- bytes, most significant first

  function Byte3(w: Word): bv8 { (w >> 24) as bv8 }

  function Byte2(w: Word): bv8 { ((w >> 16) & 0xff) as bv8 }

  function Byte1(w: Word): bv8 { ((w >> 8) & 0xff) as bv8 }

  function Byte0(w: Word): bv8 { (w & 0xff) as bv8 }

  function Join(b3: bv8, b2: bv8, b1: bv8, b0: bv8): Word {
    ((b3 as bv32) << 24) | ((b2 as bv32) << 16) | ((b1 as bv32) << 8) | (b0 as bv32)
  }

  lemma JoinSplits(b3: bv8, b2: bv8, b1: bv8, b0: bv8)
    ensures var w := Join(b3, b2, b1, b0);
      Byte3(w) == b3 && Byte2(w) == b2 && Byte1(w) == b1 && Byte0(w) == b0
  {
  }

  lemma SplitJoins(w: Word)
    ensures Join(Byte3(w), Byte2(w), Byte1(w), Byte0(w)) == w
  {
  }

  // ---------- numeric value

  function Value(w: Word): (n: nat)
    ensures n < TWO_32
  {
    ((Byte3(w) as int * 256 + Byte2(w) as int) * 256 + Byte1(w) as int) * 256 + Byte0(w) as int
  }

  /** Counting carries from byte to byte. */
  function NextOf(b3: bv8, b2: bv8, b1: bv8, b0: bv8): Word {
    if b0 != 0xff then Join(b3, b2, b1, b0 + 1)
    else if b1 != 0xff then Join(b3, b2, b1 + 1, 0)
    else if b2 != 0xff then Join(b3, b2 + 1, 0, 0)
    else Join(b3 + 1, 0, 0, 0)
  }

  lemma {:induction false} BytesNext(w: Word)
    ensures w + 1 == NextOf(Byte3(w), Byte2(w), Byte1(w), Byte0(w))
    ensures Byte0(w) == Byte1(w) == Byte2(w) == Byte3(w) == 0xff ==> w == 0xffff_ffff
  {
  }

  /** The digits of a word, most significant first, are those of its number. */
  lemma Positional(b3: bv8, b2: bv8, b1: bv8, b0: bv8)
    ensures Value(Join(b3, b2, b1, b0)) == ((b3 as int * 256 + b2 as int) * 256 + b1 as int) * 256 + b0 as int
  {
    JoinSplits(b3, b2, b1, b0);
  }

  lemma {:induction false} Carry0(b3: bv8, b2: bv8, b1: bv8, b0: bv8)
    requires b0 != 0xff
    ensures Value(Join(b3, b2, b1, b0 + 1)) == Value(Join(b3, b2, b1, b0)) + 1
  {
    ByteNext(b0);
    Positional(b3, b2, b1, b0);
    Positional(b3, b2, b1, b0 + 1);
  }

  lemma {:induction false} Carry1(b3: bv8, b2: bv8, b1: bv8)
    requires b1 != 0xff
    ensures Value(Join(b3, b2, b1 + 1, 0)) == Value(Join(b3, b2, b1, 0xff)) + 1
  {
    ByteNext(b1);
    Positional(b3, b2, b1, 0xff);
    Positional(b3, b2, b1 + 1, 0);
  }

  lemma {:induction false} Carry2(b3: bv8, b2: bv8)
    requires b2 != 0xff
    ensures Value(Join(b3, b2 + 1, 0, 0)) == Value(Join(b3, b2, 0xff, 0xff)) + 1
  {
    ByteNext(b2);
    Positional(b3, b2, 0xff, 0xff);
    Positional(b3, b2 + 1, 0, 0);
  }

  lemma {:induction false} Carry3(b3: bv8)
    requires b3 != 0xff
    ensures Value(Join(b3 + 1, 0, 0, 0)) == Value(Join(b3, 0xff, 0xff, 0xff)) + 1
  {
    ByteNext(b3);
    Positional(b3, 0xff, 0xff, 0xff);
    Positional(b3 + 1, 0, 0, 0);
  }

  lemma {:induction false} NextValue(b3: bv8, b2: bv8, b1: bv8, b0: bv8)
    requires !(b0 == b1 == b2 == b3 == 0xff)
    ensures Value(NextOf(b3, b2, b1, b0)) == Value(Join(b3, b2, b1, b0)) + 1
  {
    if b0 != 0xff {
      Carry0(b3, b2, b1, b0);
    } else if b1 != 0xff {
      Carry1(b3, b2, b1);
    } else if b2 != 0xff {
      Carry2(b3, b2);
    } else {
      Carry3(b3);
    }
  }

  lemma {:induction false} NotLast(w: Word)
    requires w != 0xffff_ffff
    ensures !(Byte0(w) == Byte1(w) == Byte2(w) == Byte3(w) == 0xff)
  {
    BytesNext(w);
  }

  /** A word's number counts how often 1 has been added to the zero word (see also ValueZero). */
  lemma {:induction false} ValueCounts(w: Word)
    requires w != 0xffff_ffff
    ensures Value(w + 1) == Value(w) + 1
  {
    NotLast(w);
    calc {
      Value(w + 1);
      { BytesNext(w); }
      Value(NextOf(Byte3(w), Byte2(w), Byte1(w), Byte0(w)));
      { NextValue(Byte3(w), Byte2(w), Byte1(w), Byte0(w)); }
      Value(Join(Byte3(w), Byte2(w), Byte1(w), Byte0(w))) + 1;
      { SplitJoins(w); }
      Value(w) + 1;
    }
  }

  /** Conversion of a number to a 32-bit unsigned word. */
  function OfNat(n: nat): Word {
    Join((n / 0x100_0000 % 256) as bv8, (n / 0x1_0000 % 256) as bv8, (n / 0x100 % 256) as bv8, (n % 256) as bv8)
  }

  lemma Digits(n: nat)
    requires n < TWO_32
    ensures ((n / 0x100_0000 % 256 * 256 + n / 0x1_0000 % 256) * 256 + n / 0x100 % 256) * 256 + n % 256 == n
  {
  }

  lemma ValueOfNat(n: nat)
    requires n < TWO_32
    ensures Value(OfNat(n)) == n
  {
    var d3, d2, d1, d0 := n / 0x100_0000 % 256, n / 0x1_0000 % 256, n / 0x100 % 256, n % 256;
    JoinSplits(d3 as bv8, d2 as bv8, d1 as bv8, d0 as bv8);
    ByteRoundTrip(d3);
    ByteRoundTrip(d2);
    ByteRoundTrip(d1);
    ByteRoundTrip(d0);
    Digits(n);
  }

  /** The word with those digits to the base 256. */
  lemma OfDigits(n: nat, d3: nat, d2: nat, d1: nat, d0: nat)
    requires d3 < 256 && d2 < 256 && d1 < 256 && d0 < 256 && n == ((d3 * 256 + d2) * 256 + d1) * 256 + d0
    ensures OfNat(n) == Join(d3 as bv8, d2 as bv8, d1 as bv8, d0 as bv8)
  {
    DigitsUnique(n, d3, d2, d1, d0);
  }

  lemma DigitsUnique(n: nat, d3: nat, d2: nat, d1: nat, d0: nat)
    requires d3 < 256 && d2 < 256 && d1 < 256 && d0 < 256 && n == ((d3 * 256 + d2) * 256 + d1) * 256 + d0
    ensures n / 0x100_0000 % 256 == d3 && n / 0x1_0000 % 256 == d2 && n / 0x100 % 256 == d1 && n % 256 == d0
  {
    assert n / 0x100 == (d3 * 256 + d2) * 256 + d1;
    assert n / 0x1_0000 == d3 * 256 + d2;
    assert n / 0x100_0000 == d3;
  }

  lemma ValueZero(w: Word)
    ensures Value(w) == 0 <==> w == 0
  {
    SplitJoins(w);
    if Value(w) == 0 {
      ByteInjective(Byte3(w), 0);
      ByteInjective(Byte2(w), 0);
      ByteInjective(Byte1(w), 0);
      ByteInjective(Byte0(w), 0);
    }
  }

  /** Conversion of an unsigned 32-bit number to int. */
  function ToInt(n: nat): int
    requires n < TWO_32
  {
    if n < 0x8000_0000 then n else n - TWO_32
  }

  /** The int that is congruent to the number modulo 2^32. */
  lemma ToIntExact(n: nat)
    requires n < TWO_32
    ensures -0x8000_0000 <= ToInt(n) < 0x8000_0000 && (ToInt(n) - n) % TWO_32 == 0
    ensures n < 0x8000_0000 ==> ToInt(n) == n
  {
  }

  lemma ToIntUnique(i: int, n: nat)
    requires n < TWO_32
    ensures -0x8000_0000 <= i < 0x8000_0000 && (i - n) % TWO_32 == 0 <==> i == ToInt(n)
  {
    ToIntExact(n);
    if -0x8000_0000 <= i < 0x8000_0000 && (i - n) % TWO_32 == 0 {
      var q := (i - n) / TWO_32;
      assert i == n + q * TWO_32;
      assert q == 0 || q == -1;
    }
  }

  // ---------- byte order

  /** The swap that from_file and gcov_magic apply. */
  function Swap(w: Word): Word {
    var v := (w >> 16) | (w << 16);
    ((v & 0xff00ff) << 8) | ((v >> 8) & 0xff00ff)
  }

  lemma SwapReverses(w: Word)
    ensures var v := Swap(w);
      Byte3(v) == Byte0(w) && Byte2(v) == Byte1(w) && Byte1(v) == Byte2(w) && Byte0(v) == Byte3(w)
  {
  }

  lemma SwapInvolution(w: Word)
    ensures Swap(Swap(w)) == w
  {
  }

  function FromFile(w: Word, endian: bool): Word {
    if endian then Swap(w) else w
  }

  const DATA_MAGIC: Word := 0x67636461
  const NOTE_MAGIC: Word := 0x67636e6f

  datatype Magic = SameOrder | OtherOrder | Mismatch

  /** gcov_magic: +1, -1 and 0. */
  function CheckMagic(magic: Word, expected: Word): Magic {
    if magic == expected then SameOrder
    else if Swap(magic) == expected then OtherOrder
    else Mismatch
  }

  /** Neither magic is a palindrome and no byte order confuses the two, so the answer is exact. */
  lemma MagicExact(magic: Word)
    ensures CheckMagic(magic, NOTE_MAGIC) == SameOrder <==> magic == NOTE_MAGIC
    ensures CheckMagic(magic, NOTE_MAGIC) == OtherOrder <==> magic == Swap(NOTE_MAGIC)
    ensures CheckMagic(magic, DATA_MAGIC) == SameOrder <==> magic == DATA_MAGIC
    ensures CheckMagic(magic, DATA_MAGIC) == OtherOrder <==> magic == Swap(DATA_MAGIC)
    ensures CheckMagic(magic, DATA_MAGIC) == Mismatch || CheckMagic(magic, NOTE_MAGIC) == Mismatch
  {
    SwapInvolution(magic);
  }

  // ---------- 64-bit counters, low word first

  function LowWord(c: bv64): Word { (c & 0xffff_ffff) as bv32 }

  function HighWord(c: bv64): Word { (c >> 32) as bv32 }

  function Counter(low: Word, high: Word): bv64 {
    (low as bv64) | ((high as bv64) << 32)
  }

  /** The low half of a counter is the word that comes first. */
  lemma CounterHalves(low: Word, high: Word)
    ensures Counter(low, high) & 0xffff_ffff == low as bv64 && Counter(low, high) >> 32 == high as bv64
    ensures LowWord(Counter(low, high)) == low && HighWord(Counter(low, high)) == high
  {
  }

  lemma CounterRoundTrip(c: bv64)
    ensures Counter(LowWord(c), HighWord(c)) == c
  {
  }

  /** Swapping both words twice leaves the counter. */
  lemma CounterRestored(c: bv64, e: bool)
    ensures Counter(FromFile(FromFile(LowWord(c), e), e), FromFile(FromFile(HighWord(c), e), e)) == c
  {
    SwapInvolution(LowWord(c));
    SwapInvolution(HighWord(c));
    CounterRoundTrip(c);
  }

  // ---------- strings, packed in memory order on a little-endian host

  type Bytes = seq<bv8>

  function BytesOf(w: Word): (b: Bytes)
    ensures |b| == 4
  {
    [Byte0(w), Byte1(w), Byte2(w), Byte3(w)]
  }

  /** The bytes of the words as they lie in memory. */
  function MemoryOf(ws: seq<Word>): (b: Bytes)
    ensures |b| == 4 * |ws|
  {
    if ws == [] then []
    else BytesOf(ws[0]) + MemoryOf(ws[1..])
  }

  function PackWords(b: Bytes): (ws: seq<Word>)
    requires |b| % 4 == 0
    ensures |ws| == |b| / 4
  {
    if b == [] then [] else [Join(b[3], b[2], b[1], b[0])] + PackWords(b[4..])
  }

  lemma {:induction false} PackMemory(b: Bytes)
    requires |b| % 4 == 0
    ensures MemoryOf(PackWords(b)) == b
  {
    if b != [] {
      JoinSplits(b[3], b[2], b[1], b[0]);
      PackMemory(b[4..]);
      assert PackWords(b)[1..] == PackWords(b[4..]);
      assert b == [b[0], b[1], b[2], b[3]] + b[4..];
    }
  }

  lemma {:induction false} MemoryPack(ws: seq<Word>)
    ensures PackWords(MemoryOf(ws)) == ws
  {
    if ws != [] {
      var b := MemoryOf(ws);
      assert b[4..] == MemoryOf(ws[1..]);
      SplitJoins(ws[0]);
      MemoryPack(ws[1..]);
    }
  }

  /** A word after a byte has been stored at one of its four addresses. */
  function StoreByte(w: Word, k: nat, b: bv8): Word
    requires k < 4
  {
    var m := BytesOf(w)[k := b];
    Join(m[3], m[2], m[1], m[0])
  }

  lemma ByteStored(w: Word, k: nat, b: bv8)
    requires k < 4
    ensures BytesOf(StoreByte(w, k, b)) == BytesOf(w)[k := b]
  {
    var m := BytesOf(w)[k := b];
    JoinSplits(m[3], m[2], m[1], m[0]);
  }

  /** Storing one byte changes the memory behind the words at that address only. */
  lemma {:induction false} StoredInMemory(ws: seq<Word>, j: nat, k: nat, b: bv8, w: Word)
    requires j < |ws| && k < 4 && BytesOf(w) == BytesOf(ws[j])[k := b]
    ensures MemoryOf(ws[j := w]) == MemoryOf(ws)[4 * j + k := b]
  {
    if j == 0 {
      assert ws[0 := w][1..] == ws[1..];
    } else {
      StoredInMemory(ws[1..], j - 1, k, b, w);
      assert ws[j := w][1..] == ws[1..][j - 1 := w];
    }
  }

  /** The number of words a non-null string takes: it is padded with one to four zero bytes. */
  function StringAlloc(length: nat): nat {
    length / 4 + 1
  }

  function Repeat<T>(x: T, n: nat): (r: seq<T>)
    ensures |r| == n && forall i :: 0 <= i < n ==> r[i] == x
  {
    seq(n, _ => x)
  }

  function Padded(s: Bytes): (b: Bytes)
    ensures |b| == 4 * StringAlloc(|s|) && |b| % 4 == 0 && |b| / 4 == StringAlloc(|s|)
  {
    s + Repeat(0, 4 * StringAlloc(|s|) - |s|)
  }

  function StringWords(s: Bytes): (ws: seq<Word>)
    ensures |ws| == StringAlloc(|s|)
  {
    PackWords(Padded(s))
  }

  /** The C string at the start of a memory block: the bytes before the first zero. */
  function CString(b: Bytes): Bytes {
    if b == [] || b[0] == 0 then [] else [b[0]] + CString(b[1..])
  }

  predicate NoZero(s: Bytes) {
    forall i :: 0 <= i < |s| ==> s[i] != 0
  }

  /** It is the longest prefix without a zero byte: it ends at the first one, or with the block. */
  lemma {:induction false} CStringExact(b: Bytes)
    ensures var s := CString(b);
      s <= b && NoZero(s) && (|s| < |b| ==> b[|s|] == 0)
  {
    if b != [] && b[0] != 0 {
      CStringExact(b[1..]);
    }
  }

  /** The least number of words that hold the string and a zero byte behind it. */
  lemma StringAllocExact(n: nat)
    ensures 4 * StringAlloc(n) > n >= 4 * (StringAlloc(n) - 1)
  {
  }

  /** In memory the stored words are the string followed by zero bytes, at least one and at most four. */
  lemma {:induction false} StringStored(s: Bytes)
    ensures var b := MemoryOf(StringWords(s));
      |s| < |b| <= |s| + 4 && b[..|s|] == s && b[|b| - 1] == 0 && forall i :: |s| <= i < |b| ==> b[i] == 0
  {
    PackMemory(Padded(s));
  }

  lemma {:induction false} CStringPadded(s: Bytes, n: nat)
    requires NoZero(s) && n > 0
    ensures CString(s + Repeat(0, n)) == s
  {
    var b := s + Repeat(0, n);
    if s != [] {
      assert b[1..] == s[1..] + Repeat(0, n);
      CStringPadded(s[1..], n);
    }
  }

  /** A string written as padded words and read back as a C string is unchanged. */
  lemma StringRoundTrip(s: Bytes)
    requires NoZero(s)
    ensures CString(MemoryOf(StringWords(s))) == s
  {
    PackMemory(Padded(s));
    CStringPadded(s, 4 * StringAlloc(|s|) - |s|);
  }
}
