# SimpleBlock flag-byte codec (webm-iterable), modelled in Dafny

This project models the Matroska `SimpleBlock` codec of webm-iterable
(`src/matroska_spec/simple_block.rs`). That codec is a thin layer over the
plain `Block` codec. A SimpleBlock's payload has the same layout as a
Block: a track-number variable-size integer (vint), then a 2-byte timecode,
then one flags byte. SimpleBlock gives meaning to two more bits of the
flags byte: `0x80` means keyframe and `0x01` means discardable (RFC 9559,
section 10.2).

- Decoding (`TryFrom<TagData>`) is the pure function `SimpleBlocks.Decode`. It:
  - rejects any tag that is not binary;
  - reads the track vint only to learn its width;
  - reads the flags byte at `width + 2`;
  - tests the two masks;
  - hands the same tag to the Block decoder for every other field.
- The source indexes that flags byte without a bounds check. `Decode` marks
  the out-of-range case as its own outcome, `OutOfBounds`, which stands for
  the source's panic.
- Encoding (`Into<TagData>`) is the method `SimpleBlocks.Encode`. It copies
  the Block encoding into an array, finds the same flags byte again, and
  ORs the bits into it in place (`SetFlagByte`). The specification function
  `EncodedBytes` gives the resulting bytes.

Modules:
- `Wrappers`: `Option` and `Result`.
- `EbmlTools`: bytes, the generic `TagData` value, and the vint reader of
  RFC 8794, section 4.
- `Blocks`: the `Block` value, the error type and the types of the Block
  decoder and encoder. The Block codec's source is not part of this model,
  so `Decode` and `Encode` take the Block decoder and encoder as function
  values. Only the contracts stated in their `requires` are assumed about
  them.
- `SimpleBlocks`: the codec itself and its properties.

Byte-layout choices:
- The keyframe mask is `0x80` (lines 46 and 80 of the source). RFC 9559
  numbers flag bits from the most significant, so this is its bit 0.
- A failure to read the track vint becomes `SimpleBlockCoercionError`
  before the Block decoder runs. Only the Block decoder's own errors pass
  through unchanged.

## Model

| member | source | states |
|---|---|---|
| `EbmlTools.VintWidth` | src/matroska_spec/simple_block.rs:39 | the width of a vint is 1 to 8 bytes: one more than the number of leading zero bits before the marker bit of its first byte |
| `EbmlTools.ReadVint` | src/matroska_spec/simple_block.rs:39-41 | the track reader fails exactly when the first byte is zero; it yields `None` exactly when the buffer is empty or shorter than the declared width; on success the width is 1 to 8 and fits in the buffer |
| `EbmlTools.ReadVintValueBound` | src/matroska_spec/simple_block.rs:39 | the value read carries exactly 7 data bits per byte of width (it is below 2^(7·width)) |
| `EbmlTools.ReadVintPrefix` | src/matroska_spec/simple_block.rs:68-72 | reading the vint depends only on its own bytes, so bytes after it do not change the width found |
| `SimpleBlocks.FlagsPosition` | src/matroska_spec/simple_block.rs:43-44 | the flags byte sits at index track-vint width + 2 (3 to 10), where the width is the leading-zero width of the first byte: after the track vint, whose bytes alone determine it, and the 2-byte timecode |
| `SimpleBlocks.Decode` | src/matroska_spec/simple_block.rs:35-57 | a non-binary tag or an unreadable track vint fails with `SimpleBlockCoercionError`; a buffer that ends before the flags byte is `OutOfBounds` at that index; otherwise the result is a SimpleBlock exactly when the Block decode of the same tag succeeds, with that block unchanged, `keyframe` equal to bit 0x80 and `discardable` equal to bit 0x01 of the flags byte; a Block decode error is passed through |
| `SimpleBlocks.DecodeChecked` | src/matroska_spec/simple_block.rs:43-44 | agrees with `Decode` on every successful or failed outcome, and turns the out-of-range flags index into `SimpleBlockCoercionError` instead of a panic |
| `SimpleBlocks.SetFlags` | src/matroska_spec/simple_block.rs:75-81 | the new flags byte keeps every bit already set and every bit outside 0x81 unchanged; it has 0x01 set iff discardable or already set, and 0x80 set iff keyframe or already set; with both flags false it is unchanged |
| `SimpleBlocks.EncodedBytes` | src/matroska_spec/simple_block.rs:62-87 | the SimpleBlock encoding has the same length as the Block encoding and equals it at every index except the flags byte, where the keyframe and discardable bits are ORed in; with both flags false it is the Block encoding |
| `SimpleBlocks.SetFlagByte` | src/matroska_spec/simple_block.rs:73-81 | the in-place update changes only the byte at the flags position, to the byte with the requested bits ORed in |
| `SimpleBlocks.Encode` | src/matroska_spec/simple_block.rs:62-87 | the encoder always yields a binary tag whose bytes are `EncodedBytes`, given that the Block encoding is binary, starts with a readable track vint and reaches the flags byte |
| `SimpleBlocks.EncodedKeepsPosition` | src/matroska_spec/simple_block.rs:68-73 | setting the flag bits leaves the track vint readable with the same width, so the flags byte stays at the same index |
| `SimpleBlocks.DecodeEncode` | src/matroska_spec/simple_block.rs:35-87 | decoding the encoding gives back the same SimpleBlock, through both `Decode` and `DecodeChecked`. This needs three things of the Block codec: its encoder leaves bits 0x81 clear; it round-trips the block; its decoder ignores the 0x81 bits of the flags byte |
| `SimpleBlocks.EncodeDecode` | src/matroska_spec/simple_block.rs:35-87 | re-encoding a decoded SimpleBlock gives back the input bytes iff the Block encoding matches the input in length and at every index except the flags byte, and differs there only by leaving the 0x81 bits clear |
| `SimpleBlocks.TestVectorDecode` | src/matroska_spec/simple_block.rs:99-104 | `[0x81,0x00,0x01,0x9d,0x00,0x00,0x00]` has track vint 1 of width 1 and its flags byte at index 3; it decodes with keyframe and discardable both true, and the block is the Block decode of the same tag |
| `SimpleBlocks.TestVectorReencode` | src/matroska_spec/simple_block.rs:110-117 | re-encoding that test SimpleBlock gives the identical seven bytes, provided the Block encoding is the same buffer with a flags byte that gives 0x9d once 0x81 is ORed in |
| `SimpleBlocks.ShortBufferPanics` | src/matroska_spec/simple_block.rs:43-44 | as written, `Binary([0x81,0x00,0x01])` indexes past the end of the buffer at index 3 |
| `SimpleBlocks.DecodeCheckedShortFails` | src/matroska_spec/simple_block.rs:43-44 | with the bounds check, every binary buffer of at most 3 bytes fails with `SimpleBlockCoercionError` |

## Left out

- The `Block` codec (`super::Block`'s `TryFrom` and `Into`) is not part of this model. It decodes the track, timecode, invisible flag and lacing, and slices the frames. The model takes it as a decoder and an encoder given as function values.
- SimpleBlocks.TestVectorDecode: does not state the test's Block-level results (invisible, FixedSize lacing, track 1, timecode 1). Those come from the Block decoder, which is not modelled.
- SimpleBlocks.TestVectorReencode: states the test's byte-identical round trip only under an assumption about the Block encoder's output. The test byte 0x9d also has 0x10 set, which only the Block encoder can reproduce.
- `read_vint` (ebml_iterable tools) is a foreign library; its source is not part of this model. `EbmlTools.ReadVint` reads a vint per RFC 8794, section 4. The SimpleBlock layer relies only on its width contract: width 1 to 8, within the buffer, failure or `None` when the buffer is too short.
- The bound on the vint value (`ReadVintValueBound` and the lemmas under it) concerns only the foreign reader. The SimpleBlock layer discards the track value and uses only its width.
- EbmlTools.ReadVint: the value is an unbounded `nat`. `ReadVintValueBound` bounds it by 2^56, so the source's `u64` cannot overflow, but 64-bit arithmetic is not modelled separately.
- Error messages: each `WebmError` is one error kind, without its text.
- The `expect` and `panic!` paths of `into` (the track vint unreadable, a non-binary Block encoding, the flags index out of range) are preconditions of `Encode`, not behaviour.
- `TagData` variants other than `Binary` are represented only as `NotBinary`.

## Findings

| source | as written | input that shows it | evidently intended | confidence | as-written member | corrected member |
|---|---|---|---|---|---|---|
| src/matroska_spec/simple_block.rs:43-44 | `try_from` reads `data[position]` without a bounds check, so a binary buffer that ends before the flags byte panics instead of returning an error | `TagData::Binary(vec![0x81, 0x00, 0x01])`: track width 1, flags index 3, buffer length 3 | return `SimpleBlockCoercionError`, as the other malformed-input paths of the same function do | not executed; medium | `SimpleBlocks.ShortBufferPanics` | `SimpleBlocks.DecodeChecked` |
