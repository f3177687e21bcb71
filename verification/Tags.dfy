/** Record tags: a 32-bit tag is split into four 8-bit levels, the most significant first. */
module Tags {
  import opened Words

  const TAG_FUNCTION: Word := 0x01000000
  const TAG_BLOCKS: Word := 0x01410000
  const TAG_ARCS: Word := 0x01430000
  const TAG_LINES: Word := 0x01450000
  const TAG_OBJECT_SUMMARY: Word := 0xa1000000
  const TAG_PROGRAM_SUMMARY: Word := 0xa3000000

  function TagMask(tag: Word): Word {
    (tag - 1) ^ tag
  }

  predicate IsSubtag(tag: Word, sub: Word) {
    TagMask(tag) >> 8 == TagMask(sub) && ((sub ^ tag) & !TagMask(tag)) == 0
  }

  predicate IsSublevel(tag: Word, sub: Word) {
    TagMask(tag) > TagMask(sub)
  }

  /** The level of the innermost byte in use. */
  function Level(tag: Word): (d: nat)
    ensures 0 <= d <= 4 && (tag != 0 ==> d >= 1)
  {
    if tag & 0xff != 0 then 4
    else if tag & 0xff00 != 0 then 3
    else if tag & 0xff_0000 != 0 then 2
    else if tag != 0 then 1
    else 0
  }

  /** The nesting depth that the reader computes by stripping full bytes off the mask. */
  method TagDepth(tag: Word) returns (depth: nat)
    requires tag != 0
    ensures depth == Level(tag) && 1 <= depth <= 4
  {
    var mask := TagMask(tag) >> 1;
    ghost var full := mask;
    depth := 4;
    while mask != 0
      invariant depth <= 4
      invariant depth == 4 ==> mask == full
      invariant depth == 3 ==> mask == full >> 8 && full & 0xff == 0xff
      invariant depth == 2 ==> mask == full >> 16 && full & 0xffff == 0xffff
      invariant depth == 1 ==> mask == full >> 24 && full & 0xff_ffff == 0xff_ffff
      invariant depth != 0
      decreases depth
    {
      if mask & 0xff != 0xff {
        break;
      }
      depth := depth - 1;
      mask := mask >> 8;
    }
  }

  // ---------- well-formed tags

  /** The outermost d levels are odd, the inner ones are zero. */
  predicate WellFormedTag(tag: Word, d: nat) {
    && 1 <= d <= 4
    && Byte3(tag) & 1 == 1
    && (if d >= 2 then Byte2(tag) & 1 == 1 else Byte2(tag) == 0)
    && (if d >= 3 then Byte1(tag) & 1 == 1 else Byte1(tag) == 0)
    && (if d >= 4 then Byte0(tag) & 1 == 1 else Byte0(tag) == 0)
  }

  /** The two tags have the same outermost d levels. */
  predicate Agree(tag: Word, sub: Word, d: nat) {
    && Byte3(tag) == Byte3(sub)
    && (d >= 2 ==> Byte2(tag) == Byte2(sub))
    && (d >= 3 ==> Byte1(tag) == Byte1(sub))
    && (d >= 4 ==> Byte0(tag) == Byte0(sub))
  }

  function MaskOf(d: nat): Word {
    if d == 1 then 0x1ff_ffff else if d == 2 then 0x1_ffff else if d == 3 then 0x1ff else 1
  }

  lemma TagLevelIs(tag: Word, d: nat)
    requires WellFormedTag(tag, d)
    ensures Level(tag) == d && TagMask(tag) == MaskOf(d)
  {
  }

  lemma XorBytes(x: Word, y: Word)
    ensures Byte3(x ^ y) == Byte3(x) ^ Byte3(y) && Byte2(x ^ y) == Byte2(x) ^ Byte2(y)
    ensures Byte1(x ^ y) == Byte1(x) ^ Byte1(y)
  {
  }

  lemma MaskBytes(x: Word)
    ensures (x & !MaskOf(1)) == 0 <==> Byte3(x) & 0xfe == 0
    ensures (x & !MaskOf(2)) == 0 <==> Byte3(x) == 0 && Byte2(x) & 0xfe == 0
    ensures (x & !MaskOf(3)) == 0 <==> Byte3(x) == 0 && Byte2(x) == 0 && Byte1(x) & 0xfe == 0
  {
  }

  lemma OddBytesAgree(a: bv8, b: bv8)
    ensures a ^ b == 0 <==> a == b
    ensures a & 1 == 1 && b & 1 == 1 ==> ((a ^ b) & 0xfe == 0 <==> a == b)
  {
  }

  /** The mask test compares all outer levels, and all of level d but its lowest bit, which is set. */
  lemma MaskedAgree(tag: Word, sub: Word, d: nat)
    requires 1 <= d <= 3 && WellFormedTag(tag, d) && WellFormedTag(sub, d + 1)
    ensures ((sub ^ tag) & !MaskOf(d)) == 0 <==> Agree(tag, sub, d)
  {
    XorBytes(sub, tag);
    MaskBytes(sub ^ tag);
    OddBytesAgree(Byte3(sub), Byte3(tag));
    OddBytesAgree(Byte2(sub), Byte2(tag));
    OddBytesAgree(Byte1(sub), Byte1(tag));
  }

  lemma MasksStep(d: nat, e: nat)
    requires 1 <= d <= 4 && 1 <= e <= 4
    ensures MaskOf(d) >> 8 == MaskOf(e) <==> e == d + 1
    ensures MaskOf(d) > MaskOf(e) <==> e > d
  {
  }

  /** Among well-formed tags the mask arithmetic is the hierarchy: sub is an immediate subtag of tag
      exactly when it is one level deeper and agrees with tag on all of tag's levels. */
  lemma SubtagIsHierarchy(tag: Word, d: nat, sub: Word, e: nat)
    requires WellFormedTag(tag, d) && WellFormedTag(sub, e)
    ensures IsSubtag(tag, sub) <==> e == d + 1 && Agree(tag, sub, d)
    ensures IsSublevel(tag, sub) <==> e > d
  {
    TagLevelIs(tag, d);
    TagLevelIs(sub, e);
    MasksStep(d, e);
    if e == d + 1 {
      MaskedAgree(tag, sub, d);
    }
  }
}
