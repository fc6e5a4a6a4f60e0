/** The operand word of the 16-bit outer-product instruction (`mac16`), as packed
    by `Amx::outer_product_i16_xy_to_z`.

    Bit layout of the word:
      bits  0..9   Y byte offset
      bits 10..19  X byte offset
      bits 20..25  Z row
      bit  27      "no accumulate" (the inverse of the caller's `accumulate`)
      bit  28      "exclude X" (no X offset given)
      bit  29      "exclude Y" (no Y offset given) */
module Mac16Operand {
  import opened Regs

  /** `Option::unwrap_or_default().0`: an absent offset reads as offset 0. */
  function XOffsetOrZero(o: Option<XBytes>): (offset: Usize) {
    match o
    case Some(b) => b.offset
    case None => 0
  }

  function YOffsetOrZero(o: Option<YBytes>): (offset: Usize) {
    match o
    case Some(b) => b.offset
    case None => 0
  }

  /** The caller's demands, checked by `debug_assert!` before the word is packed. */
  predicate Mac16Demands(xOffset: Option<XBytes>, yOffset: Option<YBytes>, zIndex: ZRow) {
    XOffsetOrZero(xOffset) < 0x200 && YOffsetOrZero(yOffset) < 0x200 && zIndex.index < 64
  }

  /** `usize::from(b)`: 1 for true, 0 for false. */
  function Flag(b: bool): (bit: bv64) {
    if b then 1 else 0
  }

  /** The fields of a `mac16` operand word. */
  datatype Mac16Fields = Mac16Fields(
    yOffset: bv64, xOffset: bv64, zIndex: bv64,
    noAccumulate: bool, excludeX: bool, excludeY: bool)
  {
    /** Every field fits its slot in the word. */
    predicate Fits() {
      yOffset < 0x400 && xOffset < 0x400 && zIndex < 64
    }
  }

  /** The OR of each field shifted into place. */
  function PackMac16(f: Mac16Fields): (w: bv64) {
    f.yOffset
    | (f.xOffset << 10)
    | (f.zIndex << 20)
    | (Flag(f.noAccumulate) << 27)
    | (Flag(f.excludeX) << 28)
    | (Flag(f.excludeY) << 29)
  }

  /** The fields at the bit positions the encoder writes. */
  function DecodeMac16(w: bv64): (f: Mac16Fields)
    ensures f.Fits()
  {
    Mac16Fields(
      w & 0x3FF, (w >> 10) & 0x3FF, (w >> 20) & 0x3F,
      (w >> 27) & 1 == 1, (w >> 28) & 1 == 1, (w >> 29) & 1 == 1)
  }

  /** A word with no bit set outside the six fields. */
  predicate NoStrayBits(w: bv64) {
    (w >> 26) & 1 == 0 && w >> 30 == 0
  }

  /** Packing loses nothing: decoding a packed word gives back every field. */
  lemma DecodePack(f: Mac16Fields)
    requires f.Fits()
    ensures NoStrayBits(PackMac16(f))
    ensures DecodeMac16(PackMac16(f)) == f
  {
  }

  /** Decoding loses nothing either: packing the fields of a word without stray
      bits gives back the word, so packing is a bijection between fitting fields
      and such words. */
  lemma PackDecode(w: bv64)
    requires NoStrayBits(w)
    ensures PackMac16(DecodeMac16(w)) == w
  {
    var p := PackMac16(DecodeMac16(w));
    DecodePack(DecodeMac16(w));
    FieldsAgree(p, w);
    SameFieldsSameWord(p, w);
  }

  lemma FieldsAgree(a: bv64, b: bv64)
    requires DecodeMac16(a) == DecodeMac16(b)
    ensures a & 0x3FF == b & 0x3FF && (a >> 10) & 0x3FF == (b >> 10) & 0x3FF
    ensures (a >> 20) & 0x3F == (b >> 20) & 0x3F
    ensures (a >> 27) & 1 == (b >> 27) & 1 && (a >> 28) & 1 == (b >> 28) & 1 && (a >> 29) & 1 == (b >> 29) & 1
  {
  }

  /** Two words without stray bits that agree on all six fields are equal. */
  lemma SameFieldsSameWord(a: bv64, b: bv64)
    requires NoStrayBits(a) && NoStrayBits(b)
    requires a & 0x3FF == b & 0x3FF && (a >> 10) & 0x3FF == (b >> 10) & 0x3FF
    requires (a >> 20) & 0x3F == (b >> 20) & 0x3F
    requires (a >> 27) & 1 == (b >> 27) & 1 && (a >> 28) & 1 == (b >> 28) & 1 && (a >> 29) & 1 == (b >> 29) & 1
    ensures a == b
  {
  }

  /** A number below 0x200 in nine bits: its low byte, and bit 8 set for the
      upper half. */
  function ToBits9(n: nat): (b: bv9)
    requires n < 0x200
    ensures b as int == n
  {
    if n < 0x100 then ToByte(n) as bv9
    else (ToByte(n - 0x100) as bv9) | 0x100
  }

  /** A byte offset below 0x200 as a 64-bit field value, and likewise a row
      number below 64; both hold the caller's number unchanged. */
  function OffsetField(n: nat): (b: bv64)
    requires n < 0x200
    ensures b < 0x200 && b as int == n
  {
    ToBits9(n) as bv64
  }

  function RowField(n: nat): (b: bv64)
    requires n < 64
    ensures b < 64 && b as int == n
  {
    ToBits9(n) as bv64
  }

  /** The fields `outer_product_i16_xy_to_z` packs for its arguments: absent
      offsets become zero, and the flags become "no accumulate" and the two
      "exclude" bits. */
  function Mac16Args(xOffset: Option<XBytes>, yOffset: Option<YBytes>, zIndex: ZRow, accumulate: bool): (f: Mac16Fields)
    requires Mac16Demands(xOffset, yOffset, zIndex)
  {
    Mac16Fields(
      OffsetField(YOffsetOrZero(yOffset)), OffsetField(XOffsetOrZero(xOffset)), RowField(zIndex.index),
      !accumulate, xOffset.None?, yOffset.None?)
  }

  /** The word handed to `mac16`. */
  function Mac16Word(xOffset: Option<XBytes>, yOffset: Option<YBytes>, zIndex: ZRow, accumulate: bool): (w: bv64)
    requires Mac16Demands(xOffset, yOffset, zIndex)
    ensures w & 0x3FF == OffsetField(YOffsetOrZero(yOffset))
    ensures (w >> 10) & 0x3FF == OffsetField(XOffsetOrZero(xOffset))
    ensures (w >> 20) & 0x3F == RowField(zIndex.index)
    ensures (w >> 27) & 1 == 1 <==> !accumulate
    ensures (w >> 28) & 1 == 1 <==> xOffset.None?
    ensures (w >> 29) & 1 == 1 <==> yOffset.None?
    ensures NoStrayBits(w)
  {
    var f := Mac16Args(xOffset, yOffset, zIndex, accumulate);
    DecodePack(f);
    PackMac16(f)
  }

  /** What the encoder can produce: both offsets below 0x200, and an offset of
      zero wherever its exclude flag is set. */
  lemma Mac16WordShape(xOffset: Option<XBytes>, yOffset: Option<YBytes>, zIndex: ZRow, accumulate: bool)
    requires Mac16Demands(xOffset, yOffset, zIndex)
    ensures var f := DecodeMac16(Mac16Word(xOffset, yOffset, zIndex, accumulate));
      f.xOffset < 0x200 && f.yOffset < 0x200
      && (f.excludeX ==> f.xOffset == 0) && (f.excludeY ==> f.yOffset == 0)
  {
  }

  /** Decoding the encoder's word gives back the caller's offsets and row, the
      inverted accumulate flag, and an exclude flag for each absent offset. */
  lemma DecodeMac16Word(xOffset: Option<XBytes>, yOffset: Option<YBytes>, zIndex: ZRow, accumulate: bool)
    requires Mac16Demands(xOffset, yOffset, zIndex)
    ensures DecodeMac16(Mac16Word(xOffset, yOffset, zIndex, accumulate))
         == Mac16Args(xOffset, yOffset, zIndex, accumulate)
  {
    DecodePack(Mac16Args(xOffset, yOffset, zIndex, accumulate));
  }
}
