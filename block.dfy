/**
 * The plain Matroska `Block` value and the error type shared by the block
 * codecs. The `Block` codec itself (track, timecode, invisible flag, lacing,
 * frame slicing) is not part of this model: the SimpleBlock codec receives
 * its decoder and encoder as function values and relies only on the
 * contracts it states about them.
 */
module Blocks {
  import opened Wrappers
  import opened EbmlTools

  datatype BlockLacing = Xiph | Ebml | FixedSize

  /** A 16-bit signed integer, the type of a block's relative timecode. */
  type i16 = x: int | -0x8000 <= x < 0x8000

  datatype Block = Block(
    track: nat,
    value: i16,
    invisible: bool,
    lacing: Option<BlockLacing>,
    payload: seq<seq<byte>>)

  /** One error kind per codec; the message text is not modelled. */
  datatype WebmError = SimpleBlockCoercionError | BlockCoercionError

  /** `TryFrom<TagData> for Block`. */
  type BlockDecoder = TagData -> Result<Block, WebmError>

  /** `Into<TagData> for Block`. */
  type BlockEncoder = Block -> TagData
}
