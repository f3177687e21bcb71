/** Records as the format lays them out: a tag, the number of words that follow, and items. Numbers
    are in the byte order of the machine that wrote the file, string bytes are not. */
module Records {
  import opened Words
  import opened Cursors

  datatype Item = Num(n: Word) | Count(c: bv64) | Str(s: Option<Bytes>)

  datatype Record = Record(tag: Word, items: seq<Item>)

  /** A string as gcov_write_string stores it: NULL as length 0, anything else padded. */
  function StringItem(s: Option<Bytes>, e: bool): (w: seq<Word>)
    ensures |w| >= 1
  {
    match s
    case None => [0]
    case Some(b) => [FromFile(OfNat(StringAlloc(|b|)), e)] + StringWords(b)
  }

  ghost predicate ValidItem(i: Item) {
    i.Str? && i.s.Some? ==> NoZero(i.s.value) && StringAlloc(|i.s.value|) < MAX_REQUEST
  }

  ghost predicate ValidItems(items: seq<Item>) {
    forall i :: 0 <= i < |items| ==> ValidItem(items[i])
  }

  /** The words of an item in a file whose byte order is the host's (e false) or the other one. */
  ghost function ItemWords(i: Item, e: bool): (w: seq<Word>)
    requires ValidItem(i)
    ensures |w| >= 1
  {
    match i
    case Num(n) => [FromFile(n, e)]
    case Count(c) => [FromFile(LowWord(c), e), FromFile(HighWord(c), e)]
    case Str(s) => StringItem(s, e)
  }

  ghost function ItemsWords(items: seq<Item>, e: bool): seq<Word>
    requires ValidItems(items)
  {
    if items == [] then [] else ItemWords(items[0], e) + ItemsWords(items[1..], e)
  }

  ghost predicate ValidRecord(r: Record) {
    r.tag != 0 && ValidItems(r.items) && |ItemsWords(r.items, false)| < TWO_32
  }

  ghost function RecordWords(r: Record, e: bool): seq<Word>
    requires ValidRecord(r)
  {
    var body := ItemsWords(r.items, e);
    [FromFile(r.tag, e), FromFile(OfNat(|ItemsWords(r.items, false)|), e)] + body
  }

  ghost predicate ValidRecords(rs: seq<Record>) {
    forall i :: 0 <= i < |rs| ==> ValidRecord(rs[i])
  }

  ghost function RecordsWords(rs: seq<Record>, e: bool): seq<Word>
    requires ValidRecords(rs)
  {
    if rs == [] then [] else RecordWords(rs[0], e) + RecordsWords(rs[1..], e)
  }

  lemma {:induction false} ItemsWordsLength(items: seq<Item>, e: bool)
    requires ValidItems(items)
    ensures |ItemsWords(items, e)| == |ItemsWords(items, false)|
  {
    if items != [] {
      ItemsWordsLength(items[1..], e);
    }
  }

  lemma RecordsStep(rs: seq<Record>, k: nat, before: seq<Word>)
    requires ValidRecords(rs) && k < |rs|
    ensures before + RecordsWords(rs[k..], false) ==
      (before + RecordWords(rs[k], false)) + RecordsWords(rs[k + 1..], false)
  {
    assert rs[k..][1..] == rs[k + 1..];
  }

  lemma ItemsStep(items: seq<Item>, k: nat, before: seq<Word>)
    requires ValidItems(items) && k < |items|
    ensures before + ItemsWords(items[k..], false) ==
      (before + ItemWords(items[k], false)) + ItemsWords(items[k + 1..], false)
  {
    assert items[k..][1..] == items[k + 1..];
  }

  // ---------- reading items back

  /** The word that FromFile restores. */
  lemma Restored(w: Word, e: bool)
    ensures FromFile(FromFile(w, e), e) == w
  {
    SwapInvolution(w);
  }

  /** f continues at position p with the words w. */
  ghost predicate Follows(f: File, p: nat, w: seq<Word>) {
    p + |w| <= |f| && f[p..p + |w|] == w
  }

  lemma FollowsParts(f: File, p: nat, a: seq<Word>, b: seq<Word>)
    requires Follows(f, p, a + b)
    ensures Follows(f, p, a) && Follows(f, p + |a|, b)
  {
    assert a == (a + b)[..|a|] && b == (a + b)[|a|..];
  }

  lemma NumberReadsBack(f: File, e: bool, c: Cursor, n: Word)
    requires !c.stuck && Follows(f, c.pos, [FromFile(n, e)])
    ensures UnsignedAt(f, e, c) == n && AfterRead(f, c, 1) == c.(pos := c.pos + 1)
  {
    Restored(n, e);
  }

  lemma CounterReadsBack(f: File, e: bool, c: Cursor, n: bv64)
    requires !c.stuck && Follows(f, c.pos, [FromFile(LowWord(n), e), FromFile(HighWord(n), e)])
    ensures CounterAt(f, e, c) == n && AfterRead(f, c, 2) == c.(pos := c.pos + 2)
  {
    TwoWordsRead(f, e, c, FromFile(LowWord(n), e), FromFile(HighWord(n), e));
    CounterRestored(n, e);
  }

  lemma TwoWordsRead(f: File, e: bool, c: Cursor, low: Word, high: Word)
    requires !c.stuck && Follows(f, c.pos, [low, high])
    ensures CounterAt(f, e, c) == Counter(FromFile(low, e), FromFile(high, e))
    ensures AfterRead(f, c, 2) == c.(pos := c.pos + 2)
  {
  }

  lemma NullReadsBack(f: File, e: bool, c: Cursor)
    requires !c.stuck && Follows(f, c.pos, [0])
    ensures StringAt(f, e, c) == Null && AfterString(f, e, c) == c.(pos := c.pos + 1)
  {
    SwapZero();
    NumberReadsBack(f, e, c, 0);
    ValueZero(0);
  }

  lemma BlockReadsBack(f: File, c: Cursor, ws: seq<Word>)
    requires !c.stuck && Follows(f, c.pos, ws) && ws != []
    ensures WordsAt(f, c, |ws|) == Some(ws) && AfterRead(f, c, |ws|) == c.(pos := c.pos + |ws|)
  {
  }

  lemma {:induction false} TextReadsBack(f: File, e: bool, c: Cursor, b: Bytes, ws: seq<Word>)
    requires !c.stuck && NoZero(b) && ws == StringWords(b) && |ws| < MAX_REQUEST
    requires Follows(f, c.pos, [FromFile(OfNat(|ws|), e)] + ws)
    ensures StringAt(f, e, c) == Text(b) && AfterString(f, e, c) == c.(pos := c.pos + 1 + |ws|)
  {
    FollowsParts(f, c.pos, [FromFile(OfNat(|ws|), e)], ws);
    NumberReadsBack(f, e, c, OfNat(|ws|));
    ValueOfNat(|ws|);
    BlockReadsBack(f, c.(pos := c.pos + 1), ws);
    StringRoundTrip(b);
  }

  lemma SwapZero()
    ensures Swap(0) == 0
  {
  }

  ghost function ItemAt(f: File, e: bool, c: Cursor, i: Item): Item {
    match i
    case Num(_) => Num(UnsignedAt(f, e, c))
    case Count(_) => Count(CounterAt(f, e, c))
    case Str(_) => Str(match StringAt(f, e, c) case Text(b) => Some(b) case _ => None)
  }

  ghost function AfterItem(f: File, e: bool, c: Cursor, i: Item): Cursor {
    match i
    case Num(_) => AfterRead(f, c, 1)
    case Count(_) => AfterRead(f, c, 2)
    case Str(_) => AfterString(f, e, c)
  }

  /** Reading on from c, each item as the kind it was written, yields exactly these items. */
  ghost predicate ItemsMatch(f: File, e: bool, c: Cursor, items: seq<Item>)
    decreases |items|
  {
    items == [] ||
    (ItemAt(f, e, c, items[0]) == items[0] && ItemsMatch(f, e, AfterItem(f, e, c, items[0]), items[1..]))
  }

  ghost function AfterItems(f: File, e: bool, c: Cursor, items: seq<Item>): Cursor
    decreases |items|
  {
    if items == [] then c else AfterItems(f, e, AfterItem(f, e, c, items[0]), items[1..])
  }

  lemma ItemReadsBack(f: File, e: bool, c: Cursor, i: Item)
    requires ValidItem(i) && !c.stuck && Follows(f, c.pos, ItemWords(i, e))
    ensures ItemAt(f, e, c, i) == i && AfterItem(f, e, c, i) == c.(pos := c.pos + |ItemWords(i, e)|)
  {
    match i
    case Num(n) => NumberReadsBack(f, e, c, n);
    case Count(n) => CounterReadsBack(f, e, c, n);
    case Str(None) => NullReadsBack(f, e, c);
    case Str(Some(b)) => TextReadsBack(f, e, c, b, StringWords(b));
  }

  lemma ItemsChain(f: File, e: bool, c: Cursor, d: Cursor, items: seq<Item>)
    requires items != [] && ItemAt(f, e, c, items[0]) == items[0] && AfterItem(f, e, c, items[0]) == d
    requires ItemsMatch(f, e, d, items[1..])
    ensures ItemsMatch(f, e, c, items) && AfterItems(f, e, c, items) == AfterItems(f, e, d, items[1..])
  {
  }

  lemma SplitAt(f: File, c: Cursor, d: Cursor, w: seq<Word>, rest: seq<Word>, all: seq<Word>)
    requires !c.stuck && all == w + rest && Follows(f, c.pos, all) && d == c.(pos := c.pos + |w|)
    ensures Follows(f, c.pos, w) && Follows(f, d.pos, rest)
    ensures d.(pos := d.pos + |rest|) == c.(pos := c.pos + |all|)
  {
    FollowsParts(f, c.pos, w, rest);
  }

  lemma {:induction false} ItemsReadBack(f: File, e: bool, c: Cursor, items: seq<Item>)
    requires ValidItems(items) && !c.stuck && Follows(f, c.pos, ItemsWords(items, e))
    ensures ItemsMatch(f, e, c, items)
    ensures AfterItems(f, e, c, items) == c.(pos := c.pos + |ItemsWords(items, e)|)
    decreases |items|
  {
    if items != [] {
      var w := ItemWords(items[0], e);
      var d := c.(pos := c.pos + |w|);
      SplitAt(f, c, d, w, ItemsWords(items[1..], e), ItemsWords(items, e));
      ItemReadsBack(f, e, c, items[0]);
      ItemsReadBack(f, e, d, items[1..]);
      ItemsChain(f, e, c, d, items);
    }
  }

  /** Reading on from c yields exactly these records: each tag, each length as the number of words
      behind its header, each record's items. */
  ghost predicate RecordsMatch(f: File, e: bool, c: Cursor, rs: seq<Record>)
    requires ValidRecords(rs)
    decreases |rs|
  {
    rs == [] ||
    var c1 := AfterRead(f, c, 1);
    var c2 := AfterRead(f, c1, 1);
    && UnsignedAt(f, e, c) == rs[0].tag
    && Value(UnsignedAt(f, e, c1)) == |ItemsWords(rs[0].items, e)|
    && ItemsMatch(f, e, c2, rs[0].items)
    && AfterItems(f, e, c2, rs[0].items).pos == c2.pos + |ItemsWords(rs[0].items, e)|
    && RecordsMatch(f, e, AfterItems(f, e, c2, rs[0].items), rs[1..])
  }

  /** Written records read back, in either byte order. */
  lemma {:induction false} RecordsReadBack(f: File, e: bool, c: Cursor, rs: seq<Record>)
    requires ValidRecords(rs) && !c.stuck && Follows(f, c.pos, RecordsWords(rs, e))
    ensures RecordsMatch(f, e, c, rs)
    decreases |rs|
  {
    if rs != [] {
      var r := rs[0];
      FollowsParts(f, c.pos, RecordWords(r, e), RecordsWords(rs[1..], e));
      HeaderReadsBack(f, e, c, r);
      ItemsReadBack(f, e, c.(pos := c.pos + 2), r.items);
      RecordsReadBack(f, e, c.(pos := c.pos + |RecordWords(r, e)|), rs[1..]);
    }
  }

  lemma {:induction false} HeaderReadsBack(f: File, e: bool, c: Cursor, r: Record)
    requires ValidRecord(r) && !c.stuck && Follows(f, c.pos, RecordWords(r, e))
    ensures UnsignedAt(f, e, c) == r.tag
    ensures var c1 := AfterRead(f, c, 1);
      && Value(UnsignedAt(f, e, c1)) == |ItemsWords(r.items, false)| == |ItemsWords(r.items, e)|
      && AfterRead(f, c1, 1) == c.(pos := c.pos + 2)
    ensures Follows(f, c.pos + 2, ItemsWords(r.items, e))
  {
    var n := |ItemsWords(r.items, false)|;
    var tag, len, body := FromFile(r.tag, e), FromFile(OfNat(n), e), ItemsWords(r.items, e);
    FollowsParts(f, c.pos, [tag, len], body);
    assert [tag, len] == [tag] + [len];
    FollowsParts(f, c.pos, [tag], [len]);
    NumberReadsBack(f, e, c, r.tag);
    NumberReadsBack(f, e, c.(pos := c.pos + 1), OfNat(n));
    ValueOfNat(n);
    ItemsWordsLength(r.items, e);
  }

  // ---------- summaries

  datatype CounterSummary = CounterSummary(num: Word, runs: Word, sumAll: bv64, runMax: bv64, sumMax: bv64)

  /** A summary for the one summable kind of counter. */
  datatype Summary = Summary(checksum: Word, ctrs: CounterSummary)

  function CtrItems(c: CounterSummary): seq<Item> {
    [Num(c.num), Num(c.runs), Count(c.sumAll), Count(c.runMax), Count(c.sumMax)]
  }

  function SummaryItems(s: Summary): seq<Item> {
    [Num(s.checksum)] + CtrItems(s.ctrs)
  }

  function CtrsAt(f: File, e: bool, c: Cursor): CounterSummary {
    var c2 := AfterReads(f, c, 1, 2);
    var c4 := AfterRead(f, c2, 2);
    CounterSummary(UnsignedAt(f, e, c), UnsignedAt(f, e, AfterRead(f, c, 1)),
      CounterAt(f, e, c2), CounterAt(f, e, c4), CounterAt(f, e, AfterRead(f, c4, 2)))
  }

  /** gcov_read_summary. */
  function SummaryAt(f: File, e: bool, c: Cursor): Summary {
    Summary(UnsignedAt(f, e, c), CtrsAt(f, e, AfterRead(f, c, 1)))
  }

  function AfterCtrs(f: File, c: Cursor): Cursor {
    AfterReads(f, AfterReads(f, c, 1, 2), 2, 3)
  }

  function AfterSummary(f: File, c: Cursor): Cursor {
    AfterCtrs(f, AfterRead(f, c, 1))
  }

  /** Three counters in a row. */
  lemma CountersReadBack(f: File, e: bool, c: Cursor, items: seq<Item>, x: bv64, y: bv64, z: bv64)
    requires items == [Count(x), Count(y), Count(z)] && ItemsMatch(f, e, c, items)
    ensures CounterAt(f, e, c) == x && CounterAt(f, e, AfterRead(f, c, 2)) == y
    ensures CounterAt(f, e, AfterRead(f, AfterRead(f, c, 2), 2)) == z
    ensures AfterItems(f, e, c, items) == AfterReads(f, c, 2, 3)
  {
    assert items[1..] == [Count(y), Count(z)];
    assert items[1..][1..] == [Count(z)];
    assert items[1..][1..][1..] == [];
    var c2 := AfterRead(f, c, 2);
    var c4 := AfterRead(f, c2, 2);
    assert ItemsMatch(f, e, c2, items[1..]) && ItemsMatch(f, e, c4, items[1..][1..]);
    var c6 := AfterRead(f, c4, 2);
    assert AfterItems(f, e, c, items) == AfterItems(f, e, c2, items[1..]) == AfterItems(f, e, c4, items[1..][1..])
      == AfterItems(f, e, c6, items[1..][1..][1..]) == c6;
    assert AfterReads(f, c, 2, 3) == AfterReads(f, c2, 2, 2) == AfterReads(f, c4, 2, 1) == AfterReads(f, c6, 2, 0);
  }

  lemma CtrsReadBack(f: File, e: bool, c: Cursor, s: CounterSummary)
    requires ItemsMatch(f, e, c, CtrItems(s))
    ensures CtrsAt(f, e, c) == s && AfterItems(f, e, c, CtrItems(s)) == AfterCtrs(f, c)
  {
    var items := CtrItems(s);
    var c1 := AfterRead(f, c, 1);
    var c2 := AfterRead(f, c1, 1);
    assert items[1..][1..] == [Count(s.sumAll), Count(s.runMax), Count(s.sumMax)];
    assert ItemsMatch(f, e, c1, items[1..]) && ItemsMatch(f, e, c2, items[1..][1..]);
    assert AfterItems(f, e, c, items) == AfterItems(f, e, c1, items[1..]) == AfterItems(f, e, c2, items[1..][1..]);
    assert AfterReads(f, c, 1, 2) == AfterReads(f, c1, 1, 1) == AfterReads(f, c2, 1, 0) == c2;
    assert UnsignedAt(f, e, c) == s.num && UnsignedAt(f, e, c1) == s.runs;
    CountersReadBack(f, e, c2, items[1..][1..], s.sumAll, s.runMax, s.sumMax);
  }

  /** A summary that lies in the file, in either byte order, is what gcov_read_summary returns. */
  lemma SummaryReadsBack(f: File, e: bool, c: Cursor, s: Summary)
    requires !c.stuck && Follows(f, c.pos, ItemsWords(SummaryItems(s), e))
    ensures SummaryAt(f, e, c) == s && AfterSummary(f, c) == c.(pos := c.pos + |ItemsWords(SummaryItems(s), e)|)
  {
    var items := SummaryItems(s);
    ItemsReadBack(f, e, c, items);
    assert items[1..] == CtrItems(s.ctrs);
    assert ItemsMatch(f, e, AfterRead(f, c, 1), CtrItems(s.ctrs));
    CtrsReadBack(f, e, AfterRead(f, c, 1), s.ctrs);
  }

  ghost function SummaryRecord(tag: Word, s: Summary): (r: Record)
    requires tag != 0
    ensures ValidRecord(r)
  {
    ShortItems(SummaryItems(s));
    Record(tag, SummaryItems(s))
  }

  lemma {:induction false} ShortItems(items: seq<Item>)
    requires forall i :: 0 <= i < |items| ==> !items[i].Str?
    ensures ValidItems(items) && |ItemsWords(items, false)| <= 2 * |items|
  {
    if items != [] {
      ShortItems(items[1..]);
    }
  }

  /** A summary record that lies in the file, in either byte order: its tag, the number of words behind
      its header, and the summary come back. */
  lemma SummaryRecordReadsBack(f: File, e: bool, c: Cursor, tag: Word, s: Summary)
    requires tag != 0 && !c.stuck && Follows(f, c.pos, RecordWords(SummaryRecord(tag, s), e))
    ensures UnsignedAt(f, e, c) == tag
    ensures var c1 := AfterRead(f, c, 1);
      && Value(UnsignedAt(f, e, c1)) == |ItemsWords(SummaryItems(s), e)|
      && SummaryAt(f, e, AfterRead(f, c1, 1)) == s
  {
    HeaderReadsBack(f, e, c, SummaryRecord(tag, s));
    SummaryReadsBack(f, e, c.(pos := c.pos + 2), s);
  }
}
