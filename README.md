# amx-rs in Dafny

A model of the core of `amx`, a Rust wrapper for the Apple Matrix Coprocessor
(AMX). The coprocessor holds three register files: X and Y have 8 rows of 64
bytes, and Z has 64 rows of 64 bytes. The model covers two parts of the crate.

**The `Amx` wrapper.** This part lives in `regs.dfy`, `operand.dfy`,
`lut.dfy` and `amx.dfy`.

- `AmxCtx` is a class holding the three register files as sequences of
  64-byte rows. `RegFile` is the same state as a value, for use in lemmas.
- `load512` and `store512` move one row in or out.
- `read_x`, `read_y` and `read_z` store every row, in increasing order, into
  its 64-byte slot of a fresh buffer. Each is a loop over a buffer, proved
  equal to the flat layout `Flatten` of the file.
- `outer_product_i16_xy_to_z` packs its arguments into one 64-bit operand
  word and issues `mac16` once.
  - The packing is `Mac16Word`.
  - `PackMac16` and `DecodeMac16` are proved to be inverse bijections between
    fields that fit their slots and words with no stray bits.
- The `mac16` instruction belongs to the backend. It is a parameter of the
  method.
  - `OuterProductDoc.Mac16Documented` states what the crate's documentation
    says about it.
  - From that, the documentation example is proved: `OuterProductDoc.DocExample`.
- `lut` is modelled in its `(Normal, Index4, X8)` configuration.
  - It uses the reference semantics of the crate's own test: output byte `i`
    is `table[index i]`.
  - Index `i` is nibble `i % 2` of byte `i / 2` of the index block, low nibble
    first.

**The property-based test `qc_genlut_lut8x16`.** This part is `genlut_test.dfy`.

- Range overlap and argument normalisation.
- The two-page discard rule, proved equivalent to "no byte of the (wrapping)
  index block lies in the table row".
- Splitting the index block over two rows at an arbitrary byte offset, proved
  to read back as the block.
- The expected row.
- `LookupMeetsOracle` proves that, on every case that is not discarded, the
  lookup writes exactly the expected row. As a consequence, the test method
  never reports a failure.

## Model

| member | source | states |
|---|---|---|
| Regs.Rows | src/lib.rs:36-46 | X and Y have 8 rows, Z has 64 |
| Regs.RegFile.WithRow | src/lib.rs:90-95 | loading a row sets that row to the data and leaves every other row of every file unchanged |
| Regs.Flatten | src/lib.rs:142-187 | the flat layout of `n` rows has `64 * n` bytes |
| Regs.FlattenAt | src/lib.rs:142-187 | byte `64 * i + k` of the flat layout is byte `k` of row `i` |
| Regs.FlattenSlots | src/lib.rs:142-187 | every 64-byte slot of the flat layout holds its row |
| Regs.FlattenFromSlots | src/lib.rs:142-187 | a buffer whose every slot holds its row is the flat layout |
| Regs.ByteAtFlatten | src/lib.rs:142-156 | addressing a file by byte offset agrees with the flat layout `read_x`/`read_y` return |
| Regs.ByteAt | src/lib.rs:23-24 | an `XBytes`/`YBytes` offset addresses X or Y as one flat array of 512 bytes, wrapping past the end; `ByteAtFlatten` states that inside the file this is the flat layout |
| Mac16Operand.XOffsetOrZero | src/lib.rs:214-215 | `unwrap_or_default().0`: the X offset given, or 0 when it is absent |
| Mac16Operand.YOffsetOrZero | src/lib.rs:213-214 | `unwrap_or_default().0`: the Y offset given, or 0 when it is absent |
| Mac16Operand.Mac16Demands | src/lib.rs:208-210 | the `debug_assert!`s: both offsets (0 when absent) below 0x200 and the Z row below 64; it is the precondition of `Mac16Word` and `OuterProductI16XyToZ` |
| Mac16Operand.PackMac16 | src/lib.rs:213-219 | the OR of the six fields shifted into place; `DecodePack` and `PackDecode` prove it a bijection between fitting fields and words without stray bits |
| Mac16Operand.DecodeMac16 | src/lib.rs:213-219 | every decoded field fits its slot: offsets in 10 bits, the Z row in 6 |
| Mac16Operand.DecodePack | src/lib.rs:213-219 | for fields that fit their slots, the packed word has nothing in bit 26 or bits 30 and up, and decoding it gives back every field |
| Mac16Operand.PackDecode | src/lib.rs:213-219 | a word with no stray bits is the packing of its own decoded fields, so the packing is onto such words |
| Mac16Operand.SameFieldsSameWord | src/lib.rs:213-219 | two words without stray bits that agree on all six fields are equal, so the fields cover every meaningful bit |
| Mac16Operand.OffsetField | src/lib.rs:213-219 | a byte offset below 0x200 becomes a 64-bit field value below 0x200 that equals the offset as an integer |
| Mac16Operand.RowField | src/lib.rs:216-219 | a Z row below 64 becomes a 64-bit field value below 64 that equals the row as an integer |
| Mac16Operand.Mac16Word | src/lib.rs:199-221 | the word's bits 0-9 hold the Y offset, bits 10-19 the X offset and bits 20-25 the Z row, each equal as an integer to the caller's number (0 for an absent offset); bit 27 is set iff not accumulating; bit 28 iff X is absent; bit 29 iff Y is absent; no other bit is set |
| Mac16Operand.Mac16WordShape | src/lib.rs:192-194 | decoded offsets are below 0x200, and an excluded operand has offset 0 |
| Mac16Operand.DecodeMac16Word | src/lib.rs:199-221 | decoding the word gives the caller's offsets (0 when absent), the Z row, the inverted accumulate flag and one exclude flag per absent offset |
| Amx.AmxCtx.constructor | src/lib.rs:83-84 | a fresh emulated context starts with every register zero |
| Amx.AmxCtx.Load512 | src/lib.rs:90-95 | the addressed row holds the 64 bytes afterwards and nothing else changes |
| Amx.AmxCtx.Store512 | src/lib.rs:106-112 | returns the addressed row; the register file is not modified |
| Amx.AmxCtx.LoadStoreRoundTrip | src/lib.rs:90-112 | storing a row just loaded returns the loaded bytes, and the state is that of the load alone |
| Amx.AmxCtx.ReadFile | src/lib.rs:142-187 | the loop of per-row stores yields exactly the flat layout of the file |
| Amx.AmxCtx.ReadX | src/lib.rs:141-155 | 512 bytes, with bytes `64 * i .. 64 * i + 64` equal to row `i` of X; nothing is modified |
| Amx.AmxCtx.ReadY | src/lib.rs:157-171 | 512 bytes, with bytes `64 * i .. 64 * i + 64` equal to row `i` of Y; nothing is modified |
| Amx.AmxCtx.ReadZ | src/lib.rs:173-187 | 4096 bytes, with bytes `64 * i .. 64 * i + 64` equal to row `i` of Z; nothing is modified |
| Amx.AmxCtx.OuterProductI16XyToZ | src/lib.rs:189-221 | X and Y are unchanged; Z becomes what `mac16` makes of the old registers and the packed word |
| Amx.AmxCtx.Lut | src/lib.rs:223-227 | only the output row of X changes, and it becomes the looked-up row computed from the registers before the call |
| Lut.NibbleOf | tests/genlut.rs:74 | every 4-bit index is below 16 |
| Lut.IndexAt | tests/genlut.rs:72-77 | every index read from the index block is below 16 |
| Lut.LookupNormal4x8 | src/lib.rs:223-227 | output byte `i` is the table-row byte selected by index `i` of the index block; `GenlutTest.LookupMeetsOracle` proves it equal to the test's expected row in every kept case |
| Lut.LutDemands | tests/genlut.rs:57-66 | the arguments the test passes: index offset below 512, table and output rows below 8 |
| GenlutTest.Overlaps | tests/genlut.rs:5-7 | `overlaps` on half-open ranges; `OverlapsIffSharedPosition` proves it means "some position lies in both" |
| GenlutTest.OverlapsIffSharedPosition | tests/genlut.rs:5-7 | for non-empty ranges, `overlaps` holds iff some position lies in both |
| GenlutTest.OverlapsSymmetric | tests/genlut.rs:5-7 | `overlaps` is symmetric |
| GenlutTest.Normalize | tests/genlut.rs:20-22 | the output row and table row are below 8 and the index offset is below 512, each congruent to its argument |
| GenlutTest.Discarded | tests/genlut.rs:23-31 | the discard condition, an overlap with the table row or with the table row 512 bytes up; `KeptIffBlockAvoidsTable` gives its meaning |
| GenlutTest.KeptIffBlockAvoidsTable | tests/genlut.rs:23-31 | a case is kept iff no byte of the 64-byte index block, wrapping at 512, lies in the table row |
| GenlutTest.FirstPageHit | tests/genlut.rs:23-25 | an overlap in the first page puts some block byte in the table row |
| GenlutTest.SecondPageHit | tests/genlut.rs:26-28 | an overlap in the page at +512 puts some wrapped block byte in the table row |
| GenlutTest.KeptBlockByteMisses | tests/genlut.rs:23-31 | in a kept case, no block byte lies in the table row |
| GenlutTest.ResizeWithZeros | tests/genlut.rs:18-19 | the result has the requested length and keeps the prefix, padding with zeros |
| GenlutTest.IndexBlock | tests/genlut.rs:19-36 | the 64-byte index block is the first 32 random indices, zero-padded to 32 and then to 64, so bytes 32-63 are zero |
| GenlutTest.SplitIndexRows | tests/genlut.rs:39-43 | `row1 ++ row2` holds block byte `k` at `sub + k`, with zeros before and after |
| GenlutTest.CopyIndexRows | tests/genlut.rs:39-43 | the two in-place copies produce the split rows |
| GenlutTest.BlockPosition | tests/genlut.rs:41-50 | block byte `k` lies in row `off / 64` while `sub + k < 64`, and otherwise in the next row, with row 0 after row 7 |
| GenlutTest.LoadIndexBlock | tests/genlut.rs:44-50 | loading the two rows gives the register file with both index rows in place |
| GenlutTest.IndexRowsHoldBlock | tests/genlut.rs:38-50 | read at byte offset `off`, the loaded file gives back the block byte for byte |
| GenlutTest.TableLoadKeepsBlock | tests/genlut.rs:52-53 | in a kept case, loading the table row does not disturb the index block |
| GenlutTest.OracleNibble | tests/genlut.rs:74 | the shift-and-mask index equals the low nibble for even `i` and the high nibble for odd `i` |
| GenlutTest.Expected | tests/genlut.rs:72-77 | the expected row has 64 bytes |
| GenlutTest.ExpectedDependsOnPrefixes | tests/genlut.rs:72-77 | only `indices[0..32]` and `values[0..16]` affect the expected row |
| GenlutTest.LookupInput | tests/genlut.rs:57-62 | the index source is Y or X as the flag says, at the normalised offset |
| GenlutTest.LookupMeetsOracle | tests/genlut.rs:56-85 | on every kept case, and from any initial register file, the lookup's output row equals the expected row |
| GenlutTest.QcGenlutLut8x16 | tests/genlut.rs:9-88 | a case is discarded iff the overlap rule says so; otherwise the row read back equals the expected row, so the assertion never fails |
| OuterProductDoc.Mac16Documented | src/lib.rs:189-190 | the documented effect of `mac16` for a plain product word whose X and Y operands lie wholly inside their files (offsets up to 448): Z row `2 * j`, viewed as `[i16; 32]`, holds `x[i] * y[j]` wherever the product fits in an `i16` |
| OuterProductDoc.I16BytesRoundTrip | src/lib.rs:16-21 | splitting an `i16` into little-endian bytes and reading them back gives the value |
| OuterProductDoc.EncodeI16s | src/lib.rs:16-21 | lane `i` of the loaded row is element `i` of the `[i16; 32]` array |
| OuterProductDoc.I16Matrix | src/lib.rs:28 | the `[[i16; 32]; 64]` view of the 4096 bytes of Z has 64 rows of 32 lanes; `MatrixOfRows` places Z row `r` lane `i` at `[r][i]` |
| OuterProductDoc.MatrixOfRows | src/lib.rs:28 | the transmuted `[[i16; 32]; 64]` holds lane `i` of Z row `r` at `[r][i]` |
| OuterProductDoc.DocWord | src/lib.rs:22-27 | the example's word multiplies both operands from byte 0, overwrites Z and targets row 0 |
| OuterProductDoc.DocLanes | src/lib.rs:16-21 | with the vectors in row 0 of X and Y, the operand lanes are the vectors' elements |
| OuterProductDoc.DocProducts | src/lib.rs:28-33 | under the documented `mac16`, Z row `2 * j` lane `i` is `x[i] * y[j]` |
| OuterProductDoc.DocMatrix | src/lib.rs:28-33 | read back as `[[i16; 32]; 64]`, a Z file holding the example's products in its even rows shows `x[i] * y[j]` at `[2 * j][i]` |
| OuterProductDoc.DocExample | src/lib.rs:14-33 | the documentation example: after the loads, the outer product and `read_z`, `z[2 * j][i] == x[i] * y[j]` for all 32 x 32 pairs |

## Left out

- Amx.AmxCtx.OuterProductI16XyToZ: the instruction's effect on Z is a parameter (`Mac16Op`). The backend modules that define `mac16` (`emu`, `ops` and the native backend) are not part of this model.
- OuterProductDoc.Mac16Documented: covers only what the documentation example relies on. That is a word with both operands present, no accumulation and Z row field 0, operand offsets of at most 448, and only where a product fits in an `i16`. These are not modelled:
  - accumulation;
  - the exclude flags;
  - odd Z rows, including the claim that only the least significant bit of `z_index` matters;
  - overflow of the product;
  - operands that run past byte 511 of X or Y (offsets 449 to 0x1FF), and decoded offsets 0x200 to 0x3FF, which the encoder never emits.
- Amx.AmxCtx.Lut: models only `(Normal, Index4, X8)` with an X row as output.
  - Other `LutIn`, `LutOut` and `LutTy` combinations are not modelled.
  - The `genlut` module that implements the lookup is not part of this model, so the semantics is the test's reference behaviour.
  - Lut.LutDemands: the precondition is what the test passes. The demands of `genlut` itself are unknown here.
  - An index block that runs past byte 511 is assumed to continue at byte 0 of the same file. That assumption makes the +512 page of the discard rule meaningful.
- GenlutTest.QcGenlutLut8x16: the second index row is loaded at row `(index_offset / 64 + 1) % 8`. The source passes `index_offset / 64 + 1`, which is 8 when the offset is 448 or more.
  - How `load512` treats row 8 is defined in `load_store`, which is not part of this model.
  - The wrap to row 0 is an assumption that matches the wrapping index block above.
- GenlutTest.QcGenlutLut8x16: quickcheck's generation of arguments is not modelled; the arguments are parameters. A discarded case is the result `Discard` rather than quickcheck's bookkeeping.
- Amx.AmxCtx.OuterProductI16XyToZ: its `requires` clause holds the `debug_assert!` conditions. What a release build does beyond them is not modelled. An offset from 0x200 to 0x3FF stays within its own 10-bit field. An offset of 0x400 or more spills: Y into the X field, and X into the Z field. A Z row of 64 or more spills too: 64 sets bit 26, and 128 sets bit 27, the no-accumulate flag.
- Amx.AmxCtx.constructor: models the zeroed register file of a fresh emulated context. Hardware enablement and the native `AmxCtx::new` with its error case are foreign calls and are not modelled.
- Raw pointers, `MaybeUninit` and `transmute`: transfers copy 64-byte sequences, and the `[[i16; 32]; 64]` view of Z is the function `I16Matrix`.
- `load1024_aligned`, `store1024_aligned`, `load512_interleaved` and `store512_interleaved`: they are thin calls into `load_store`, which is not part of this model.
- Concurrency: torn reads across rows cannot arise in this sequential model.
- `examples/loads.rs` and `examples/multithreaded.rs`: demonstration programs, built on floating point, threads and timing.
