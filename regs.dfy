/** Register-file state and typed addresses of the AMX coprocessor.

    The coprocessor has three register files: X and Y hold 8 rows of 64 bytes
    each, Z holds 64 rows of 64 bytes. Rows are addressed by typed row numbers
    (`XRow`, `YRow`, `ZRow`), and X and Y can also be addressed by a byte offset
    into the whole file (`XBytes`, `YBytes`). */
module Regs {

  /** A byte of register or memory contents (Rust `u8`). */
  type Byte = bv8

  /** The byte holding a value below 256, built bit by bit from the top. */
  function ToByte(n: nat): (b: Byte)
    requires n < 0x100
    ensures b as int == n
  {
    if n == 0 then 0
    else
      var high := ToByte(n / 2);
      (high << 1) | (if n % 2 == 1 then 1 else 0)
  }

  /** Rust `usize` on the 64-bit targets the crate supports. */
  type Usize = n: nat | n < 0x1_0000_0000_0000_0000

  /** One 64-byte register row. */
  type Row = s: seq<Byte> | |s| == 64 witness seq(64, _ => 0)

  datatype Option<T> = None | Some(value: T)

  /** The three register files. */
  datatype Bank = X | Y | Z

  /** Number of rows in a register file. */
  function Rows(b: Bank): (n: nat)
    ensures n == 8 || n == 64
    ensures n == 64 <==> b == Z
  {
    match b
    case X => 8
    case Y => 8
    case Z => 64
  }

  /** Typed row and byte-offset addresses, one type per register file. */
  datatype XRow = XRow(index: Usize)
  datatype YRow = YRow(index: Usize)
  datatype ZRow = ZRow(index: Usize)
  datatype XBytes = XBytes(offset: Usize)
  datatype YBytes = YBytes(offset: Usize)

  /** A row that a 512-bit load or store can address: any of the three kinds. */
  datatype RowRef = OfX(x: XRow) | OfY(y: YRow) | OfZ(z: ZRow)
  {
    function File(): Bank {
      match this
      case OfX(_) => X
      case OfY(_) => Y
      case OfZ(_) => Z
    }

    function Index(): Usize {
      match this
      case OfX(r) => r.index
      case OfY(r) => r.index
      case OfZ(r) => r.index
    }

    /** The row number is within its register file. */
    predicate InRange() {
      Index() < Rows(File())
    }
  }

  /** Row `i` of file `b`, as an address of the matching kind. */
  function RowOf(b: Bank, i: Usize): (r: RowRef)
    ensures r.File() == b && r.Index() == i
  {
    match b
    case X => OfX(XRow(i))
    case Y => OfY(YRow(i))
    case Z => OfZ(ZRow(i))
  }

  /** A snapshot of the whole register file, `AmxState` in the crate's documentation. */
  datatype RegFile = RegFile(x: seq<Row>, y: seq<Row>, z: seq<Row>)
  {
    predicate Valid() {
      |x| == 8 && |y| == 8 && |z| == 64
    }

    function File(b: Bank): (rows: seq<Row>)
      requires Valid()
      ensures |rows| == Rows(b)
    {
      match b
      case X => x
      case Y => y
      case Z => z
    }

    /** The register file after row `i` of file `b` is overwritten with `data`. */
    function WithRow(b: Bank, i: nat, data: Row): (r: RegFile)
      requires Valid() && i < Rows(b)
      ensures r.Valid()
      ensures r.File(b)[i] == data
      ensures forall j | 0 <= j < Rows(b) && j != i :: r.File(b)[j] == File(b)[j]
      ensures forall c | c != b :: r.File(c) == File(c)
    {
      match b
      case X => this.(x := x[i := data])
      case Y => this.(y := y[i := data])
      case Z => this.(z := z[i := data])
    }
  }

  /** The register file every emulated context starts from. */
  const ZeroRow: Row := seq(64, _ => 0)
  const Zeroed: RegFile := RegFile(seq(8, _ => ZeroRow), seq(8, _ => ZeroRow), seq(64, _ => ZeroRow))

  /** The rows of a file laid out one after another, as a flat byte array. */
  function Flatten(rows: seq<Row>): (bytes: seq<Byte>)
    ensures |bytes| == 64 * |rows|
  {
    if rows == [] then [] else rows[0] + Flatten(rows[1..])
  }

  /** Byte `64 * i + k` of the flat layout is byte `k` of row `i`. */
  lemma {:induction false} FlattenAt(rows: seq<Row>, i: nat, k: nat)
    requires i < |rows| && k < 64
    ensures Flatten(rows)[64 * i + k] == rows[i][k]
  {
    if i > 0 {
      FlattenAt(rows[1..], i - 1, k);
    }
  }

  /** Every 64-byte slot of the flat layout holds its row. */
  lemma FlattenSlots(rows: seq<Row>)
    ensures forall i, k | 0 <= i < |rows| && 0 <= k < 64 :: Flatten(rows)[64 * i + k] == rows[i][k]
  {
    forall i, k | 0 <= i < |rows| && 0 <= k < 64
      ensures Flatten(rows)[64 * i + k] == rows[i][k]
    {
      FlattenAt(rows, i, k);
    }
  }

  /** A byte string whose every 64-byte slot holds the matching row is the
      flat layout of the rows. */
  lemma FlattenFromSlots(bytes: seq<Byte>, rows: seq<Row>)
    requires |bytes| == 64 * |rows|
    requires forall i, k | 0 <= i < |rows| && 0 <= k < 64 :: bytes[64 * i + k] == rows[i][k]
    ensures bytes == Flatten(rows)
  {
    forall p | 0 <= p < |bytes|
      ensures bytes[p] == Flatten(rows)[p]
    {
      var i, k := p / 64, p % 64;
      assert bytes[64 * i + k] == rows[i][k];
      FlattenAt(rows, i, k);
    }
  }

  /** The byte at offset `p` of a file addressed as one flat array; offsets past
      the end wrap around to the start. */
  function ByteAt(rows: seq<Row>, p: nat): (b: Byte)
    requires |rows| > 0
  {
    var q := p % (64 * |rows|);
    rows[q / 64][q % 64]
  }

  /** Byte addressing agrees with the flat layout of the file. */
  lemma ByteAtFlatten(rows: seq<Row>, p: nat)
    requires 0 < |rows| && p < 64 * |rows|
    ensures ByteAt(rows, p) == Flatten(rows)[p]
  {
    var n := 64 * |rows|;
    assert p % n == p by { ModBelow(p, n); }
    FlattenAt(rows, p / 64, p % 64);
  }

  lemma ModBelow(p: nat, n: nat)
    requires p < n
    ensures p % n == p
  {
  }
}
