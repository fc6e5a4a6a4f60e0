/** The crate's documentation example for `outer_product_i16_xy_to_z`: two
    vectors of 32 `i16` are loaded into X and Y, their outer product is written
    to the even rows of Z, and Z read back as a `[[i16; 32]; 64]` holds
    `x[i] * y[j]` at row `2 * j`, lane `i`.

    The `mac16` instruction is the backend's; what the example relies on is
    stated as `Mac16Documented`, and the example is proved from that. */
module OuterProductDoc {
  import opened Regs
  import opened Mac16Operand
  import opened Amx

  /** An `i16` value. */
  predicate IsI16(v: int) {
    -0x8000 <= v < 0x8000
  }

  /** The `i16` stored little-endian, two's complement, in bytes `lo`, `hi`. */
  function I16FromBytes(lo: Byte, hi: Byte): (v: int)
    ensures IsI16(v)
  {
    var u := lo as int + 0x100 * hi as int;
    if u < 0x8000 then u else u - 0x1_0000
  }

  /** Lane `i` of a row viewed as `[i16; 32]`. */
  function LaneI16(row: Row, i: nat): (v: int)
    requires i < 32
    ensures IsI16(v)
  {
    I16FromBytes(row[2 * i], row[2 * i + 1])
  }

  /** An `i16` reinterpreted as a `u16`. */
  function U16(v: int): (u: nat)
    requires IsI16(v)
    ensures u < 0x1_0000
  {
    if v < 0 then v + 0x1_0000 else v
  }

  /** The low and the high byte of an `i16` in two's complement. */
  function LowByte(v: int): (lo: Byte)
    requires IsI16(v)
  {
    ToByte(U16(v) % 0x100)
  }

  function HighByte(v: int): (hi: Byte)
    requires IsI16(v)
  {
    ToByte(U16(v) / 0x100)
  }

  /** Splitting an `i16` into bytes and reading it back gives the value. */
  lemma I16BytesRoundTrip(v: int)
    requires IsI16(v)
    ensures I16FromBytes(LowByte(v), HighByte(v)) == v
  {
    var u := U16(v);
    assert LowByte(v) as int + 0x100 * HighByte(v) as int == u;
  }

  /** `[i16; 32]` as the 64 bytes `load512` copies. */
  function EncodeI16s(vals: seq<int>): (row: Row)
    requires |vals| == 32 && forall i | 0 <= i < 32 :: IsI16(vals[i])
    ensures forall i | 0 <= i < 32 :: LaneI16(row, i) == vals[i]
  {
    var row: Row := seq(64, k requires 0 <= k < 64 =>
      if k % 2 == 0 then LowByte(vals[k / 2]) else HighByte(vals[k / 2]));
    assert forall i | 0 <= i < 32 :: LaneI16(row, i) == vals[i] by {
      forall i | 0 <= i < 32
        ensures LaneI16(row, i) == vals[i]
      {
        assert row[2 * i] == LowByte(vals[i]);
        assert row[2 * i + 1] == HighByte(vals[i]);
        I16BytesRoundTrip(vals[i]);
      }
    }
    row
  }

  /** The `i16` at byte offset `p` of an X or Y file; offsets wrap at 512. */
  function I16At(rows: seq<Row>, p: nat): (v: int)
    requires |rows| == 8
    ensures IsI16(v)
  {
    I16FromBytes(ByteAt(rows, p), ByteAt(rows, p + 1))
  }

  /** The byte offsets into X and Y that a word names. */
  function XOperandOffset(w: bv64): (off: nat) {
    DecodeMac16(w).xOffset as nat
  }

  function YOperandOffset(w: bv64): (off: nat) {
    DecodeMac16(w).yOffset as nat
  }

  /** Lane `i` of the X operand at byte offset `off`, and likewise for Y. */
  function XLane(r: RegFile, off: nat, i: nat): (v: int)
    requires r.Valid()
  {
    I16At(r.x, off + 2 * i)
  }

  function YLane(r: RegFile, off: nat, j: nat): (v: int)
    requires r.Valid()
  {
    I16At(r.y, off + 2 * j)
  }

  /** Lane `i` of the product row for Y lane `j`: row `2 * j` of Z. */
  function ZLane(z: ZFile, j: nat, i: nat): (v: int)
    requires i < 32 && j < 32
  {
    LaneI16(z[2 * j], i)
  }

  /** A word that multiplies both operands, overwrites Z and targets row 0. */
  predicate PlainProductWord(w: bv64) {
    var f := DecodeMac16(w);
    NoStrayBits(w) && f.noAccumulate && !f.excludeX && !f.excludeY && f.zIndex == 0
  }

  /** What the documentation says `mac16` does with such a word: row `2 * j` of
      Z, viewed as `[i16; 32]`, holds the products of the X lanes with Y lane
      `j`, at least wherever a product fits in an `i16`. Only operands that lie
      wholly inside their 512-byte file are covered (offsets up to 448). */
  ghost predicate Mac16Documented(mac16: Mac16Op) {
    forall r: RegFile, w: bv64, j: nat, i: nat
      | r.Valid() && PlainProductWord(w) && XOperandOffset(w) <= 448 && YOperandOffset(w) <= 448
        && i < 32 && j < 32
        && IsI16(XLane(r, XOperandOffset(w), i) * YLane(r, YOperandOffset(w), j)) ::
      ZLane(mac16(r, w), j, i) == XLane(r, XOperandOffset(w), i) * YLane(r, YOperandOffset(w), j)
  }

  /** The example's vectors: `x = [1, 2, ..., 32]`, `y = [51, 52, ..., 82]`. */
  const DocX: seq<int> := seq(32, i => i + 1)
  const DocY: seq<int> := seq(32, j => 51 + j)

  /** `Row r` of Z, read back as `[[i16; 32]; 64]` from the bytes of `read_z`. */
  function I16Matrix(bytes: seq<Byte>): (m: seq<seq<int>>)
    requires |bytes| == 4096
    ensures |m| == 64 && forall r | 0 <= r < 64 :: |m[r]| == 32
  {
    seq(64, r requires 0 <= r < 64 =>
      seq(32, i requires 0 <= i < 32 => I16FromBytes(bytes[64 * r + 2 * i], bytes[64 * r + 2 * i + 1])))
  }

  /** Reading Z as `[[i16; 32]; 64]` gives lane `i` of row `r` at `[r][i]`. */
  lemma MatrixOfRows(bytes: seq<Byte>, rows: seq<Row>)
    requires |bytes| == 4096 && |rows| == 64
    requires forall r, k | 0 <= r < 64 && 0 <= k < 64 :: bytes[64 * r + k] == rows[r][k]
    ensures forall r, i | 0 <= r < 64 && 0 <= i < 32 :: I16Matrix(bytes)[r][i] == LaneI16(rows[r], i)
  {
    forall r, i | 0 <= r < 64 && 0 <= i < 32
      ensures I16Matrix(bytes)[r][i] == LaneI16(rows[r], i)
    {
      assert bytes[64 * r + 2 * i] == rows[r][2 * i];
      assert bytes[64 * r + (2 * i + 1)] == rows[r][2 * i + 1];
    }
  }

  /** The word the example issues multiplies both operands from byte 0,
      overwrites Z and targets row 0. */
  lemma DocWord()
    ensures var w := Mac16Word(Some(XBytes(0)), Some(YBytes(0)), ZRow(0), false);
      PlainProductWord(w) && XOperandOffset(w) == 0 && YOperandOffset(w) == 0
  {
    DecodeMac16Word(Some(XBytes(0)), Some(YBytes(0)), ZRow(0), false);
  }

  /** The first 64 bytes of an X or Y file are its row 0. */
  lemma ByteAtFirstRow(rows: seq<Row>, p: nat)
    requires |rows| == 8 && p < 64
    ensures ByteAt(rows, p) == rows[0][p]
  {
    assert p % 512 == p;
  }

  /** With the vectors in rows 0 of X and Y and both offsets 0, the operand
      lanes are the vectors' elements. */
  lemma DocLanes(r: RegFile)
    requires r.Valid() && r.x[0] == EncodeI16s(DocX) && r.y[0] == EncodeI16s(DocY)
    ensures forall i | 0 <= i < 32 :: XLane(r, 0, i) == DocX[i]
    ensures forall j | 0 <= j < 32 :: YLane(r, 0, j) == DocY[j]
  {
    forall i | 0 <= i < 32
      ensures XLane(r, 0, i) == DocX[i]
    {
      ByteAtFirstRow(r.x, 2 * i);
      ByteAtFirstRow(r.x, 2 * i + 1);
      assert XLane(r, 0, i) == LaneI16(r.x[0], i);
    }
    forall j | 0 <= j < 32
      ensures YLane(r, 0, j) == DocY[j]
    {
      ByteAtFirstRow(r.y, 2 * j);
      ByteAtFirstRow(r.y, 2 * j + 1);
      assert YLane(r, 0, j) == LaneI16(r.y[0], j);
    }
  }

  lemma ProductFits(a: int, b: int)
    requires 1 <= a <= 32 && 51 <= b <= 82
    ensures IsI16(a * b)
  {
    assert (32 - a) * b >= 0;
    assert (32 - a) * b == 32 * b - a * b;
  }

  /** One lane of the documented behaviour, for a word with both offsets 0. */
  lemma DocumentedLane(mac16: Mac16Op, r: RegFile, w: bv64, j: nat, i: nat)
    requires Mac16Documented(mac16)
    requires r.Valid() && PlainProductWord(w) && XOperandOffset(w) == 0 && YOperandOffset(w) == 0
    requires i < 32 && j < 32 && IsI16(XLane(r, 0, i) * YLane(r, 0, j))
    ensures ZLane(mac16(r, w), j, i) == XLane(r, 0, i) * YLane(r, 0, j)
  {
  }

  /** Under the documented behaviour, the example's products land in the even
      rows of Z: every product of the example fits in an `i16`. */
  lemma DocProducts(mac16: Mac16Op, r: RegFile)
    requires Mac16Documented(mac16)
    requires r.Valid() && r.x[0] == EncodeI16s(DocX) && r.y[0] == EncodeI16s(DocY)
    ensures var w := Mac16Word(Some(XBytes(0)), Some(YBytes(0)), ZRow(0), false);
      forall j, i | 0 <= j < 32 && 0 <= i < 32 :: ZLane(mac16(r, w), j, i) == DocX[i] * DocY[j]
  {
    var w := Mac16Word(Some(XBytes(0)), Some(YBytes(0)), ZRow(0), false);
    DocWord();
    DocLanes(r);
    forall j, i | 0 <= j < 32 && 0 <= i < 32
      ensures ZLane(mac16(r, w), j, i) == DocX[i] * DocY[j]
    {
      ProductFits(DocX[i], DocY[j]);
      DocumentedLane(mac16, r, w, j, i);
    }
  }

  /** Read back as `[[i16; 32]; 64]`, a Z file holding the example's products
      in its even rows shows them at `[2 * j][i]`. */
  lemma DocMatrix(bytes: seq<Byte>, product: ZFile)
    requires |bytes| == 4096
    requires forall r, k | 0 <= r < 64 && 0 <= k < 64 :: bytes[64 * r + k] == product[r][k]
    requires forall j, i | 0 <= j < 32 && 0 <= i < 32 :: ZLane(product, j, i) == DocX[i] * DocY[j]
    ensures forall j, i | 0 <= j < 32 && 0 <= i < 32 :: I16Matrix(bytes)[2 * j][i] == DocX[i] * DocY[j]
  {
    MatrixOfRows(bytes, product);
    forall j, i | 0 <= j < 32 && 0 <= i < 32
      ensures I16Matrix(bytes)[2 * j][i] == DocX[i] * DocY[j]
    {
      assert I16Matrix(bytes)[2 * j][i] == LaneI16(product[2 * j], i);
      assert LaneI16(product[2 * j], i) == ZLane(product, j, i);
    }
  }

  /** The documentation example, on a fresh context: for every pair of lanes the
      product is found at row `2 * j`, lane `i`. */
  method DocExample(mac16: Mac16Op) returns (z: seq<seq<int>>)
    requires Mac16Documented(mac16)
    ensures |z| == 64 && forall r | 0 <= r < 64 :: |z[r]| == 32
    ensures forall j, i | 0 <= j < 32 && 0 <= i < 32 :: z[2 * j][i] == DocX[i] * DocY[j]
  {
    var ctx := new AmxCtx();
    ctx.Load512(EncodeI16s(DocX), OfX(XRow(0)));
    ctx.Load512(EncodeI16s(DocY), OfY(YRow(0)));
    ghost var before := ctx.State();
    ghost var w := Mac16Word(Some(XBytes(0)), Some(YBytes(0)), ZRow(0), false);
    DocProducts(mac16, before);
    ctx.OuterProductI16XyToZ(Some(XBytes(0)), Some(YBytes(0)), ZRow(0), false, mac16);
    ghost var product := mac16(before, w);
    assert ctx.z == product;
    var bytes := ctx.ReadZ();
    z := I16Matrix(bytes);
    DocMatrix(bytes, product);
  }
}
