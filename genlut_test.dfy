/** The property-based test of the table lookup, `qc_genlut_lut8x16`, and the
    reference behaviour it checks the lookup against.

    The test normalises its random arguments, discards the cases where the
    index block overlaps the table row, places a 64-byte index block at an
    arbitrary byte offset of X or Y (splitting it over two consecutive rows),
    loads the table row, runs the lookup and compares the output row with the
    expected bytes `values[nibble i of indices]`. */
module GenlutTest {
  import opened Regs
  import opened Lut
  import opened Amx

  /** A half-open range `start..end` (Rust `std::ops::Range<usize>`). */
  datatype Range = Range(start: int, end: int)

  /** `overlaps`: the two ranges intersect. */
  predicate Overlaps(a: Range, b: Range) {
    a.start < b.end && a.end > b.start
  }

  /** Position `n` lies in the range. */
  predicate Contains(r: Range, n: int) {
    r.start <= n < r.end
  }

  /** For non-empty ranges, `overlaps` holds exactly when some position lies
      in both ranges. */
  lemma OverlapsIffSharedPosition(a: Range, b: Range)
    requires a.start < a.end && b.start < b.end
    ensures Overlaps(a, b) <==> exists n :: Contains(a, n) && Contains(b, n)
  {
    if Overlaps(a, b) {
      var n := if a.start < b.start then b.start else a.start;
      assert Contains(a, n) && Contains(b, n);
    }
  }

  /** `overlaps` does not depend on the order of its arguments. */
  lemma OverlapsSymmetric(a: Range, b: Range)
    ensures Overlaps(a, b) == Overlaps(b, a)
  {
  }

  /** The test's arguments after normalisation. */
  datatype Case = Case(outRow: nat, tableRow: nat, indexOffset: nat)

  /** Reduces the random row numbers modulo 8 and the index offset modulo 512. */
  function Normalize(tableRow: Usize, indexOffset: Usize, outRow: Usize): (c: Case)
    ensures c.outRow < 8 && c.tableRow < 8 && c.indexOffset < 512
    ensures c.outRow % 8 == outRow % 8 && c.tableRow % 8 == tableRow % 8
    ensures c.indexOffset % 512 == indexOffset % 512
  {
    Case(outRow % 8, tableRow % 8, indexOffset % 512)
  }

  /** The discard rule: the 64-byte index block overlaps the table row, either
      as it is or with the table row moved up by 512 bytes. */
  predicate Discarded(indexOffset: nat, tableRow: nat) {
    Overlaps(Range(indexOffset, indexOffset + 64), Range(tableRow * 64, tableRow * 64 + 64))
    || Overlaps(Range(indexOffset, indexOffset + 64), Range(tableRow * 64 + 512, tableRow * 64 + 64 + 512))
  }

  /** The row of an X or Y file that holds byte `k` of an index block starting
      at byte `off`, when the block runs past byte 511 and continues at byte 0. */
  function BlockRow(off: nat, k: nat): (row: nat) {
    (off + k) % 512 / 64
  }

  /** The second page of the discard rule is what makes it sound for a block
      that wraps: a case is kept exactly when no byte of the wrapped index
      block lies in the table row. */
  lemma KeptIffBlockAvoidsTable(indexOffset: nat, tableRow: nat)
    requires indexOffset < 512 && tableRow < 8
    ensures !Discarded(indexOffset, tableRow)
        <==> forall k | 0 <= k < 64 :: BlockRow(indexOffset, k) != tableRow
  {
    var off, t := indexOffset, tableRow;
    if Overlaps(Range(off, off + 64), Range(t * 64, t * 64 + 64)) {
      var k := FirstPageHit(off, t);
    } else if Overlaps(Range(off, off + 64), Range(t * 64 + 512, t * 64 + 64 + 512)) {
      var k := SecondPageHit(off, t);
    } else {
      forall k | 0 <= k < 64
        ensures BlockRow(off, k) != t
      {
        KeptBlockByteMisses(off, t, k);
      }
    }
  }

  /** An overlap in the first page: some byte of the block lies in the table row. */
  lemma FirstPageHit(off: nat, t: nat) returns (k: nat)
    requires off < 512 && t < 8 && Overlaps(Range(off, off + 64), Range(t * 64, t * 64 + 64))
    ensures k < 64 && BlockRow(off, k) == t
  {
    k := if off >= t * 64 then 0 else t * 64 - off;
    DivMod512(off + k, 0, off + k);
    DivMod64(off + k, t, off + k - t * 64);
  }

  /** An overlap in the second page: the block wraps past byte 511 into the
      table row. */
  lemma SecondPageHit(off: nat, t: nat) returns (k: nat)
    requires off < 512 && t < 8 && Overlaps(Range(off, off + 64), Range(t * 64 + 512, t * 64 + 64 + 512))
    ensures k < 64 && BlockRow(off, k) == t
  {
    k := t * 64 + 512 - off;
    DivMod512(off + k, 1, t * 64);
    DivMod64(t * 64, t, 0);
  }

  /** Without an overlap in either page, byte `k` of the block is outside the
      table row. */
  lemma KeptBlockByteMisses(off: nat, t: nat, k: nat)
    requires off < 512 && t < 8 && k < 64 && !Discarded(off, t)
    ensures BlockRow(off, k) != t
  {
    if off + k < 512 {
      DivMod512(off + k, 0, off + k);
    } else {
      DivMod512(off + k, 1, off + k - 512);
    }
  }

  /** `Vec::resize_with(n, u8::default)`: truncate to `n` bytes, or pad with
      zeros up to `n` bytes. */
  function ResizeWithZeros(v: seq<Byte>, n: nat): (r: seq<Byte>)
    ensures |r| == n
    ensures forall i | 0 <= i < n :: r[i] == if i < |v| then v[i] else 0
  {
    if |v| >= n then v[..n] else v + seq(n - |v|, _ => 0)
  }

  /** The index block: the random indices cut or padded to 32 bytes, then
      padded to 64. Only the first 32 random index bytes reach the block, and
      bytes 32..63 are always zero. */
  function IndexBlock(indices: seq<Byte>): (block: seq<Byte>)
    ensures |block| == 64
    ensures forall k | 0 <= k < 64 :: block[k] == if k < 32 && k < |indices| then indices[k] else 0
  {
    ResizeWithZeros(ResizeWithZeros(indices, 32), 64)
  }

  /** The two rows that carry a 64-byte block at sub-row offset `sub`: the block
      starts at byte `sub` of the first row and continues in the second. */
  function SplitIndexRows(block: seq<Byte>, sub: nat): (rows: (Row, Row))
    requires |block| == 64 && sub < 64
    ensures forall k | 0 <= k < 64 :: (rows.0 + rows.1)[sub + k] == block[k]
    ensures forall k | 0 <= k < sub :: rows.0[k] == 0
    ensures forall k | sub <= k < 64 :: rows.1[k] == 0
  {
    (seq(sub, _ => 0) + block[..64 - sub], block[64 - sub..] + seq(64 - sub, _ => 0))
  }

  /** The test's reading of index `i`: `(indices[i / 2] >> (i % 2 * 4)) & 0xf`,
      which is the low nibble for even `i` and the high nibble for odd `i`. */
  function OracleNibble(b: Byte, i: nat): (n: nat)
    ensures n == NibbleOf(b, i)
  {
    if i % 2 == 0 then
      assert (b >> 0) & 0xF == b & 0xF;
      ((b >> (i % 2 * 4)) & 0xF) as nat
    else
      assert (b >> 4) & 0xF == b >> 4;
      ((b >> (i % 2 * 4)) & 0xF) as nat
  }

  /** The test's expected output row: byte `i` is the table entry selected by
      index `i` of the block. */
  function Expected(indices: seq<Byte>, values: seq<Byte>): (e: seq<Byte>)
    requires |indices| == 64 && |values| == 64
    ensures |e| == 64
  {
    seq(64, i requires 0 <= i < 64 => values[OracleNibble(indices[i / 2], i)])
  }

  /** The expected row depends only on the first 32 index bytes and the first
      16 table entries. */
  lemma ExpectedDependsOnPrefixes(indices: seq<Byte>, values: seq<Byte>, indices': seq<Byte>, values': seq<Byte>)
    requires |indices| == |values| == |indices'| == |values'| == 64
    requires indices[..32] == indices'[..32] && values[..16] == values'[..16]
    ensures Expected(indices, values) == Expected(indices', values')
  {
    forall i | 0 <= i < 64
      ensures Expected(indices, values)[i] == Expected(indices', values')[i]
    {
      var b := indices[i / 2];
      assert b == indices[..32][i / 2] == indices'[i / 2];
      var n := OracleNibble(b, i);
      assert n < 16;
      assert values[n] == values[..16][n] == values'[n];
      assert Expected(indices, values)[i] == values[n];
      assert Expected(indices', values')[i] == values'[n];
    }
  }

  /** Where byte `k` of a block at offset `off = 64 * q + sub` lands: in row `q`
      while it fits, then in the next row, which after row 7 is row 0. */
  lemma BlockPosition(off: nat, k: nat)
    requires off < 512 && k < 64
    ensures off % 64 + k < 64 ==> BlockRow(off, k) == off / 64 && (off + k) % 64 == off % 64 + k
    ensures off % 64 + k >= 64 ==> BlockRow(off, k) == (off / 64 + 1) % 8 && (off + k) % 64 == off % 64 + k - 64
  {
    var q, sub := off / 64, off % 64;
    var p := off + k;
    if sub + k < 64 {
      DivMod512(p, 0, p);
      DivMod64(p, q, sub + k);
    } else if q < 7 {
      DivMod512(p, 0, p);
      DivMod64(p, q + 1, sub + k - 64);
    } else {
      DivMod512(p, 1, sub + k - 64);
      DivMod64(sub + k - 64, 0, sub + k - 64);
      DivMod64(p, 8, sub + k - 64);
    }
  }

  /** Quotient and remainder are determined by `p == 64 * a + c`, `0 <= c < 64`,
      and likewise for 512. */
  lemma DivMod64(p: int, a: int, c: int)
    requires p == 64 * a + c && 0 <= c < 64
    ensures p / 64 == a && p % 64 == c
  {
  }

  lemma DivMod512(p: int, a: int, c: int)
    requires p == 512 * a + c && 0 <= c < 512
    ensures p / 512 == a && p % 512 == c
  {
  }

  /** Byte `p` of an X or Y file is byte `p % 64` of row `BlockRow`. */
  lemma ByteAtEightRows(rows: seq<Row>, off: nat, k: nat)
    requires |rows| == 8
    ensures ByteAt(rows, off + k) == rows[BlockRow(off, k)][(off + k) % 64]
  {
    var p := off + k;
    assert 64 * |rows| == 512;
    var a, q := p / 512, p % 512;
    var c, r := q / 64, q % 64;
    assert q == 64 * c + r;
    DivMod64(p, 8 * a + c, r);
  }

  /** Byte `k` of the index block at byte offset `off` of an X or Y file. */
  function BlockByte(rows: seq<Row>, off: nat, k: nat): (b: Byte)
    requires |rows| == 8
  {
    ByteAt(rows, off + k)
  }

  /** The register file after the two index rows are loaded at rows `q` and
      `q + 1` (wrapping to row 0) of file `b`. */
  function WithIndexRows(r: RegFile, b: Bank, off: nat, block: seq<Byte>): (s: RegFile)
    requires r.Valid() && b != Z && off < 512 && |block| == 64
    ensures s.Valid()
  {
    var rows := SplitIndexRows(block, off % 64);
    r.WithRow(b, off / 64, rows.0).WithRow(b, (off / 64 + 1) % 8, rows.1)
  }

  /** Split round trip: read back at byte offset `off`, the two loaded rows
      give the index block byte for byte. */
  lemma IndexRowsHoldBlock(r: RegFile, b: Bank, off: nat, block: seq<Byte>)
    requires r.Valid() && b != Z && off < 512 && |block| == 64
    ensures forall k | 0 <= k < 64 :: BlockByte(WithIndexRows(r, b, off, block).File(b), off, k) == block[k]
  {
    var q, sub := off / 64, off % 64;
    var rows := SplitIndexRows(block, sub);
    var s := WithIndexRows(r, b, off, block);
    forall k | 0 <= k < 64
      ensures BlockByte(s.File(b), off, k) == block[k]
    {
      ByteAtEightRows(s.File(b), off, k);
      BlockPosition(off, k);
      assert (rows.0 + rows.1)[sub + k] == block[k];
      if sub + k < 64 {
        assert s.File(b)[q] == rows.0;
      } else {
        assert s.File(b)[(q + 1) % 8] == rows.1;
      }
    }
  }

  /** Loading the table row leaves the index block readable as before, exactly
      because the case was not discarded. */
  lemma TableLoadKeepsBlock(s: RegFile, b: Bank, off: nat, t: nat, values: Row)
    requires s.Valid() && b != Z && off < 512 && t < 8 && !Discarded(off, t)
    ensures forall k | 0 <= k < 64 :: BlockByte(s.WithRow(X, t, values).File(b), off, k) == BlockByte(s.File(b), off, k)
  {
    KeptIffBlockAvoidsTable(off, t);
    var s' := s.WithRow(X, t, values);
    forall k | 0 <= k < 64
      ensures BlockByte(s'.File(b), off, k) == BlockByte(s.File(b), off, k)
    {
      var row := BlockRow(off, k);
      assert row != t;
      assert s'.File(b)[row] == s.File(b)[row];
      ByteAtEightRows(s.File(b), off, k);
      ByteAtEightRows(s'.File(b), off, k);
    }
  }

  /** Where the lookup reads its indices from. */
  function LookupInput(indicesInY: bool, off: Usize): (input: LutIn)
    ensures input.Offset() == off && input.File() == (if indicesInY then Y else X)
  {
    if indicesInY then IndicesInY(YBytes(off)) else IndicesInX(XBytes(off))
  }

  /** The register file the test hands to the lookup: the index block split
      over two rows of X or Y at byte offset `off`, then the table in row `t`. */
  function LoadedForLookup(r: RegFile, indicesInY: bool, off: nat, t: nat, block: seq<Byte>, values: Row): (s: RegFile)
    requires r.Valid() && off < 512 && t < 8 && |block| == 64
    ensures s.Valid()
  {
    WithIndexRows(r, if indicesInY then Y else X, off, block).WithRow(X, t, values)
  }

  /** The test's assertion: on every case that is not discarded, the lookup's
      output equals the expected row, whatever the register file held before. */
  lemma LookupMeetsOracle(r: RegFile, indicesInY: bool, off: Usize, t: nat, block: seq<Byte>, values: Row)
    requires r.Valid() && off < 512 && t < 8 && |block| == 64 && !Discarded(off, t)
    ensures LookupNormal4x8(LoadedForLookup(r, indicesInY, off, t, block, values), LookupInput(indicesInY, off), XRow(t))
         == Expected(block, values)
  {
    var b := if indicesInY then Y else X;
    var s := WithIndexRows(r, b, off, block);
    var s' := LoadedForLookup(r, indicesInY, off, t, block, values);
    IndexRowsHoldBlock(r, b, off, block);
    TableLoadKeepsBlock(s, b, off, t, values);
    var out := LookupNormal4x8(s', LookupInput(indicesInY, off), XRow(t));
    forall i | 0 <= i < 64
      ensures out[i] == Expected(block, values)[i]
    {
      var n := IndexAt(s'.File(b), off, i);
      assert n == NibbleOf(BlockByte(s'.File(b), off, i / 2), i);
      assert n == OracleNibble(block[i / 2], i);
      assert out[i] == s'.x[t][n];
    }
  }

  /** The two `copy_from_slice` calls: the tail of the first row receives the
      head of the block, the head of the second row its tail. */
  method CopyIndexRows(block: seq<Byte>, sub: nat) returns (rows: (Row, Row))
    requires |block| == 64 && sub < 64
    ensures rows == SplitIndexRows(block, sub)
  {
    var row1 := new Byte[64](_ => 0);
    var row2 := new Byte[64](_ => 0);
    forall k | sub <= k < 64 {
      row1[k] := block[k - sub];
    }
    forall k | 0 <= k < sub {
      row2[k] := block[64 - sub + k];
    }
    assert row1[..] == SplitIndexRows(block, sub).0;
    assert row2[..] == SplitIndexRows(block, sub).1;
    rows := (row1[..], row2[..]);
  }

  /** Loads the index block at byte offset `off` of file `b`: its first part
      into row `off / 64`, the rest into the next row. */
  method LoadIndexBlock(ctx: AmxCtx, b: Bank, off: nat, block: seq<Byte>)
    requires ctx.Valid() && b != Z && off < 512 && |block| == 64
    modifies ctx
    ensures ctx.Valid() && ctx.State() == WithIndexRows(old(ctx.State()), b, off, block)
  {
    var rows := CopyIndexRows(block, off % 64);
    var q := off / 64;
    ctx.Load512(rows.0, RowOf(b, q));
    ctx.Load512(rows.1, RowOf(b, (q + 1) % 8));
  }

  /** The outcome of one quickcheck case. */
  datatype TestResult = Passed | Discard | Failed

  /** `qc_genlut_lut8x16`: one case of the property-based test, run on a fresh
      context. The case is discarded exactly when the overlap rule says so, and
      otherwise the row read back from the output row is the expected one, so
      the assertion never fails. */
  method QcGenlutLut8x16(
    tableRow: Usize, indexOffset: Usize, indicesInY: bool, outRow: Usize,
    indices: seq<Byte>, values: seq<Byte>)
    returns (result: TestResult, got: Row)
    ensures result == Discard <==> Discarded(indexOffset % 512, tableRow % 8)
    ensures result != Failed
    ensures result == Passed ==> got == Expected(IndexBlock(indices), ResizeWithZeros(values, 64))
  {
    var vals: Row := ResizeWithZeros(values, 64);
    var idx := ResizeWithZeros(indices, 32);
    var c := Normalize(tableRow, indexOffset, outRow);
    if Discarded(c.indexOffset, c.tableRow) {
      return Discard, ZeroRow;
    }

    var ctx := new AmxCtx();
    idx := ResizeWithZeros(idx, 64);

    LoadIndexBlock(ctx, if indicesInY then Y else X, c.indexOffset, idx);
    ctx.Load512(vals, OfX(XRow(c.tableRow)));
    assert ctx.State() == LoadedForLookup(Zeroed, indicesInY, c.indexOffset, c.tableRow, idx, vals);

    ctx.Lut(LookupInput(indicesInY, c.indexOffset), XRow(c.tableRow), XRow(c.outRow));
    got := ctx.Store512(OfX(XRow(c.outRow)));
    var allX := ctx.ReadX();

    var expected := Expected(idx, vals);
    LookupMeetsOracle(Zeroed, indicesInY, c.indexOffset, c.tableRow, idx, vals);
    if got == expected {
      result := Passed;
    } else {
      result := Failed;
    }
  }
}
