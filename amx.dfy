/** The high-level `Amx` wrapper over an AMX context: row loads and stores,
    whole-file reads, the 16-bit outer product and the table lookup.

    The context owns the register file. The `mac16` instruction itself belongs
    to the backend (hardware or emulator), so the outer product takes it as a
    parameter and is specified by the word it issues. */
module Amx {
  import opened Regs
  import opened Mac16Operand
  import opened Lut

  /** The contents of the Z file: 64 rows. */
  type ZFile = s: seq<Row> | |s| == 64 witness seq(64, _ => ZeroRow)

  /** The backend's `mac16` instruction: given the register file and the
      operand word, the new contents of Z (the instruction writes only Z). */
  type Mac16Op = (RegFile, bv64) -> ZFile

  class AmxCtx {
    var x: seq<Row>
    var y: seq<Row>
    var z: seq<Row>

    ghost predicate Valid()
      reads this
    {
      State().Valid()
    }

    /** The register file as a value. */
    function State(): (r: RegFile)
      reads this
    {
      RegFile(x, y, z)
    }

    /** A fresh context; the emulated register file starts zeroed. */
    constructor ()
      ensures Valid() && State() == Zeroed
    {
      x := Zeroed.x;
      y := Zeroed.y;
      z := Zeroed.z;
    }

    /** `load512`: copy 64 bytes into one row, leaving every other row alone. */
    method Load512(data: Row, row: RowRef)
      requires Valid() && row.InRange()
      modifies this
      ensures Valid()
      ensures State() == old(State()).WithRow(row.File(), row.Index(), data)
    {
      match row.File()
      case X => x := x[row.Index() := data];
      case Y => y := y[row.Index() := data];
      case Z => z := z[row.Index() := data];
    }

    /** `store512`: copy one row out; the register file is not changed. */
    method Store512(row: RowRef) returns (data: Row)
      requires Valid() && row.InRange()
      ensures data == State().File(row.File())[row.Index()]
    {
      data := match row.File()
        case X => x[row.Index()]
        case Y => y[row.Index()]
        case Z => z[row.Index()];
    }

    /** A row loaded and then stored again comes back unchanged. */
    method LoadStoreRoundTrip(data: Row, row: RowRef) returns (got: Row)
      requires Valid() && row.InRange()
      modifies this
      ensures Valid() && got == data
      ensures State() == old(State()).WithRow(row.File(), row.Index(), data)
    {
      Load512(data, row);
      got := Store512(row);
    }

    /** Stores every row of file `b` in increasing row order into its 64-byte
        slot of a fresh buffer. */
    method ReadFile(b: Bank) returns (bytes: seq<Byte>)
      requires Valid()
      ensures bytes == Flatten(State().File(b))
    {
      var rows := State().File(b);
      var buf := new Byte[64 * |rows|];
      for i := 0 to |rows|
        invariant forall j, k | 0 <= j < i && 0 <= k < 64 :: buf[64 * j + k] == rows[j][k]
      {
        var row := Store512(RowOf(b, i));
        assert row == rows[i];
        forall k | 0 <= k < 64 {
          buf[64 * i + k] := row[k];
        }
      }
      bytes := buf[..];
      FlattenFromSlots(bytes, rows);
    }

    /** `read_x`: the whole of X, row 0 first. */
    method ReadX() returns (bytes: seq<Byte>)
      requires Valid()
      ensures |bytes| == 512
      ensures forall i, k | 0 <= i < 8 && 0 <= k < 64 :: bytes[64 * i + k] == x[i][k]
    {
      bytes := ReadFile(X);
      FlattenSlots(x);
    }

    /** `read_y`: the whole of Y, row 0 first. */
    method ReadY() returns (bytes: seq<Byte>)
      requires Valid()
      ensures |bytes| == 512
      ensures forall i, k | 0 <= i < 8 && 0 <= k < 64 :: bytes[64 * i + k] == y[i][k]
    {
      bytes := ReadFile(Y);
      FlattenSlots(y);
    }

    /** `read_z`: the whole of Z, row 0 first. */
    method ReadZ() returns (bytes: seq<Byte>)
      requires Valid()
      ensures |bytes| == 4096
      ensures forall i, k | 0 <= i < 64 && 0 <= k < 64 :: bytes[64 * i + k] == z[i][k]
    {
      bytes := ReadFile(Z);
      FlattenSlots(z);
    }

    /** `outer_product_i16_xy_to_z`: issue `mac16` once, with the operand word
        packed from the arguments. X and Y are left as they were. */
    method OuterProductI16XyToZ(
      xOffset: Option<XBytes>, yOffset: Option<YBytes>, zIndex: ZRow, accumulate: bool,
      mac16: Mac16Op)
      requires Valid() && Mac16Demands(xOffset, yOffset, zIndex)
      modifies this
      ensures Valid() && x == old(x) && y == old(y)
      ensures z == mac16(old(State()), Mac16Word(xOffset, yOffset, zIndex, accumulate))
    {
      z := mac16(State(), Mac16Word(xOffset, yOffset, zIndex, accumulate));
    }

    /** `lut` with `(Normal, Index4, X8)`: replace the output row of X with the
        looked-up bytes, computed from the register file before the call. */
    method Lut(input: LutIn, table: XRow, output: XRow)
      requires Valid() && LutDemands(input, table, output)
      modifies this
      ensures Valid()
      ensures State() == old(State()).WithRow(X, output.index, LookupNormal4x8(old(State()), input, table))
    {
      x := x[output.index := LookupNormal4x8(State(), input, table)];
    }
  }
}
