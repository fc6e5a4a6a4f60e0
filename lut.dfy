/** The generalized table lookup (`lut`) in its "Normal" mode with 4-bit
    indices and 8-bit outputs, the configuration `(Normal, Index4, X8)`.

    Each of the 64 output bytes is one byte of a table row in X, selected by a
    4-bit index. The indices are packed two per byte, low nibble first, in a
    block of 32 bytes that starts at an arbitrary byte offset of X or Y. */
module Lut {
  import opened Regs

  /** Where the indices come from: `Either<YBytes, XBytes>` (Left is Y). */
  datatype LutIn = IndicesInY(y: YBytes) | IndicesInX(x: XBytes)
  {
    function File(): Bank {
      if IndicesInY? then Y else X
    }

    function Offset(): Usize {
      if IndicesInY? then y.offset else x.offset
    }
  }

  /** Index `i` of a packed 4-bit index array: the low nibble of byte `i / 2`
      for even `i`, the high nibble for odd `i`. */
  function NibbleOf(b: Byte, i: nat): (n: nat)
    ensures n < 16
  {
    (if i % 2 == 0 then b & 0xF else b >> 4) as nat
  }

  /** Index `i` (of 64) of the index block at byte offset `off` of an X or Y
      file. A block that runs past byte 511 continues at byte 0. */
  function IndexAt(rows: seq<Row>, off: nat, i: nat): (n: nat)
    requires |rows| == 8
    ensures n < 16
  {
    NibbleOf(ByteAt(rows, off + i / 2), i)
  }

  /** The row that the lookup writes to its output row. */
  function LookupNormal4x8(r: RegFile, input: LutIn, table: XRow): (out: Row)
    requires r.Valid() && table.index < 8
  {
    seq(64, i requires 0 <= i < 64 =>
      r.x[table.index][IndexAt(r.File(input.File()), input.Offset(), i)])
  }

  /** What the lookup demands of its arguments: an index offset within the
      512-byte file and table and output rows within X. */
  predicate LutDemands(input: LutIn, table: XRow, output: XRow) {
    input.Offset() < 512 && table.index < 8 && output.index < 8
  }
}
