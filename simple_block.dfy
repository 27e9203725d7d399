/**
 * The flag-byte layer of the Matroska SimpleBlock codec (RFC 9559,
 * section 10.2): a SimpleBlock is a Block whose flags byte also carries a
 * keyframe bit (0x80) and a discardable bit (0x01).
 */
module SimpleBlocks {
  import opened Wrappers
  import opened EbmlTools
  import opened Blocks

  datatype SimpleBlock = SimpleBlock(block: Block, discardable: bool, keyframe: bool)

  const KeyframeMask: byte := 0x80
  const DiscardableMask: byte := 0x01

  predicate IsKeyframe(flags: byte)
  {
    flags & KeyframeMask == KeyframeMask
  }

  predicate IsDiscardable(flags: byte)
  {
    flags & DiscardableMask == DiscardableMask
  }

  /**
   * Index of the flags byte in a buffer that starts with a readable track
   * number: past the track number's vint and the 2-byte timecode.
   */
  function FlagsPosition(data: seq<byte>): (position: nat)
    requires Readable(data)
    ensures 3 <= position <= 10
    ensures position == VintWidth(data[0]) + 2
    ensures position - 2 <= |data| && ReadVint(data[..position - 2]) == ReadVint(data)
  {
    var trackSize := LeadingWidth(data);
    ReadVintPrefix(data, data[..trackSize]);
    trackSize + 2
  }

  /**
   * What `SimpleBlock::try_from` can end in. `OutOfBounds` stands for the
   * panic of the unchecked `data[position]` when the buffer ends before
   * the flags byte.
   */
  datatype DecodeOutcome = Decoded(simpleBlock: SimpleBlock) | Failed(error: WebmError) | OutOfBounds(index: nat)

  /** `TryFrom<TagData> for SimpleBlock`, as written. */
  function Decode(tag: TagData, blockDecode: BlockDecoder): (r: DecodeOutcome)
    ensures !tag.Binary? ==> r == Failed(SimpleBlockCoercionError)
    ensures tag.Binary? && !Readable(tag.data) ==> r == Failed(SimpleBlockCoercionError)
    ensures r.OutOfBounds? <==> tag.Binary? && Readable(tag.data) && FlagsPosition(tag.data) >= |tag.data|
    ensures r.OutOfBounds? ==> r.index == FlagsPosition(tag.data)
    ensures r.Decoded? <==>
              tag.Binary? && Readable(tag.data) && FlagsPosition(tag.data) < |tag.data| && blockDecode(tag).Ok?
    ensures r.Decoded? ==>
              var flags := tag.data[FlagsPosition(tag.data)];
              && r.simpleBlock.block == blockDecode(tag).value
              && r.simpleBlock.keyframe == IsKeyframe(flags)
              && r.simpleBlock.discardable == IsDiscardable(flags)
    ensures tag.Binary? && Readable(tag.data) && FlagsPosition(tag.data) < |tag.data| && blockDecode(tag).Err? ==>
              r == Failed(blockDecode(tag).error)
  {
    match tag
    case NotBinary => Failed(SimpleBlockCoercionError)
    case Binary(data) =>
      match ReadVint(data)
      case Err(_) => Failed(SimpleBlockCoercionError)
      case Ok(None) => Failed(SimpleBlockCoercionError)
      case Ok(Some(track)) =>
        var position := 0 + track.width + 2;
        if position >= |data| then OutOfBounds(position)
        else
          var flags := data[position];
          var keyframe := IsKeyframe(flags);
          var discardable := IsDiscardable(flags);
          match blockDecode(tag)
          case Err(e) => Failed(e)
          case Ok(block) => Decoded(SimpleBlock(block, discardable, keyframe))
  }

  /**
   * `Decode` with the flags byte bounds-checked: a buffer that ends before
   * the flags byte is a `SimpleBlockCoercionError` instead of a panic.
   */
  function DecodeChecked(tag: TagData, blockDecode: BlockDecoder): (r: Result<SimpleBlock, WebmError>)
    ensures Decode(tag, blockDecode).Decoded? ==> r == Ok(Decode(tag, blockDecode).simpleBlock)
    ensures Decode(tag, blockDecode).Failed? ==> r == Err(Decode(tag, blockDecode).error)
    ensures Decode(tag, blockDecode).OutOfBounds? ==> r == Err(SimpleBlockCoercionError)
  {
    match Decode(tag, blockDecode)
    case Decoded(sb) => Ok(sb)
    case Failed(e) => Err(e)
    case OutOfBounds(_) => Err(SimpleBlockCoercionError)
  }

  /** The flags byte after `into` ORs in the discardable and keyframe bits. */
  function SetFlags(flags: byte, discardable: bool, keyframe: bool): (r: byte)
    ensures r & flags == flags
    ensures r & 0x7e == flags & 0x7e
    ensures IsDiscardable(r) == (discardable || IsDiscardable(flags))
    ensures IsKeyframe(r) == (keyframe || IsKeyframe(flags))
    ensures !discardable && !keyframe ==> r == flags
  {
    var withDiscardable := if discardable then flags | DiscardableMask else flags;
    if keyframe then withDiscardable | KeyframeMask else withDiscardable
  }

  /**
   * What `into` needs of the Block encoding: a binary value that starts
   * with a readable track number and reaches the flags byte.
   */
  predicate EncodesReadably(t: TagData)
  {
    t.Binary? && Readable(t.data) && FlagsPosition(t.data) < |t.data|
  }

  /** The bytes `Into<TagData> for SimpleBlock` produces. */
  function EncodedBytes(sb: SimpleBlock, blockEncode: BlockEncoder): (r: seq<byte>)
    requires EncodesReadably(blockEncode(sb.block))
    ensures var plain := blockEncode(sb.block).data;
            var position := FlagsPosition(plain);
            && |r| == |plain|
            && (forall i | 0 <= i < |r| && i != position :: r[i] == plain[i])
            && r[position] == SetFlags(plain[position], sb.discardable, sb.keyframe)
            && (!sb.discardable && !sb.keyframe ==> r == plain)
  {
    var plain := blockEncode(sb.block).data;
    var position := FlagsPosition(plain);
    plain[position := SetFlags(plain[position], sb.discardable, sb.keyframe)]
  }

  /** The in-place update `*flags |= 0x01` / `*flags |= 0x80` of one byte. */
  method SetFlagByte(data: array<byte>, position: nat, discardable: bool, keyframe: bool)
    requires position < data.Length
    modifies data
    ensures data[position] == SetFlags(old(data[position]), discardable, keyframe)
    ensures forall i | 0 <= i < data.Length && i != position :: data[i] == old(data[i])
  {
    if discardable {
      data[position] := data[position] | DiscardableMask;
    }
    if keyframe {
      data[position] := data[position] | KeyframeMask;
    }
  }

  /** `Into<TagData> for SimpleBlock`. */
  method Encode(sb: SimpleBlock, blockEncode: BlockEncoder) returns (result: TagData)
    requires EncodesReadably(blockEncode(sb.block))
    ensures result.Binary?
    ensures result.data == EncodedBytes(sb, blockEncode)
  {
    var bytes := blockEncode(sb.block).data;
    var data := new byte[|bytes|](i requires 0 <= i < |bytes| => bytes[i]);
    assert data[..] == bytes;
    var position: nat := 0;
    var track := ReadVint(data[..]).value.value;
    position := position + track.width + 2;
    SetFlagByte(data, position, sb.discardable, sb.keyframe);
    result := Binary(data[..]);
  }

  /** Setting the flag bits leaves the track number, and so the flags byte's position, where it was. */
  lemma {:induction false} EncodedKeepsPosition(sb: SimpleBlock, blockEncode: BlockEncoder)
    requires EncodesReadably(blockEncode(sb.block))
    ensures EncodesReadably(Binary(EncodedBytes(sb, blockEncode)))
    ensures FlagsPosition(EncodedBytes(sb, blockEncode)) == FlagsPosition(blockEncode(sb.block).data)
  {
    var plain := blockEncode(sb.block).data;
    var encoded := EncodedBytes(sb, blockEncode);
    var w := LeadingWidth(plain);
    assert plain[..w] == encoded[..w];
    ReadVintPrefix(plain, encoded);
  }

  /** `plain` with its byte at `position` replaced by `flags`. */
  function WithFlagsByte(plain: seq<byte>, position: nat, flags: byte): (r: seq<byte>)
    requires position < |plain|
    ensures |r| == |plain| && r[position] == flags
    ensures forall i | 0 <= i < |plain| && i != position :: r[i] == plain[i]
  {
    plain[position := flags]
  }

  /**
   * The Block decoder reads `plain` the same whatever the two SimpleBlock
   * bits (0x81) of its flags byte are.
   */
  ghost predicate IgnoresSimpleBlockBits(blockDecode: BlockDecoder, plain: seq<byte>)
    requires Readable(plain) && FlagsPosition(plain) < |plain|
  {
    var position := FlagsPosition(plain);
    forall x: byte | x & 0x7e == plain[position] & 0x7e ::
      blockDecode(Binary(WithFlagsByte(plain, position, x))) == blockDecode(Binary(plain))
  }

  /**
   * Decoding what `Encode` produced gives back the SimpleBlock, provided the
   * Block encoder leaves both SimpleBlock bits clear, the Block codec
   * round-trips the block, and the Block decoder ignores those two bits.
   */
  lemma {:induction false} DecodeEncode(sb: SimpleBlock, blockEncode: BlockEncoder, blockDecode: BlockDecoder)
    requires EncodesReadably(blockEncode(sb.block))
    requires blockEncode(sb.block).data[FlagsPosition(blockEncode(sb.block).data)] & 0x81 == 0
    requires blockDecode(blockEncode(sb.block)) == Ok(sb.block)
    requires IgnoresSimpleBlockBits(blockDecode, blockEncode(sb.block).data)
    ensures Decode(Binary(EncodedBytes(sb, blockEncode)), blockDecode) == Decoded(sb)
    ensures DecodeChecked(Binary(EncodedBytes(sb, blockEncode)), blockDecode) == Ok(sb)
  {
    var plain := blockEncode(sb.block).data;
    var position := FlagsPosition(plain);
    var flags := SetFlags(plain[position], sb.discardable, sb.keyframe);
    assert EncodedBytes(sb, blockEncode) == WithFlagsByte(plain, position, flags);
    EncodedKeepsPosition(sb, blockEncode);
  }

  /** How the input's flags byte and a Block re-encoding must agree for the round trip. */
  predicate AgreesOutsideSimpleBlockBits(plain: seq<byte>, data: seq<byte>, position: nat)
    requires position < |data|
  {
    && |plain| == |data|
    && (forall i | 0 <= i < |data| && i != position :: plain[i] == data[i])
    && plain[position] | (data[position] & 0x81) == data[position]
  }

  /** If re-encoding reproduces the input, the Block encoding agrees with it outside bits 0x81. */
  lemma {:induction false} ReencodedInputAgrees(data: seq<byte>, sb: SimpleBlock, blockEncode: BlockEncoder)
    requires Readable(data) && FlagsPosition(data) < |data|
    requires sb.keyframe == IsKeyframe(data[FlagsPosition(data)])
    requires sb.discardable == IsDiscardable(data[FlagsPosition(data)])
    requires EncodesReadably(blockEncode(sb.block))
    requires EncodedBytes(sb, blockEncode) == data
    ensures AgreesOutsideSimpleBlockBits(blockEncode(sb.block).data, data, FlagsPosition(data))
  {
    EncodedKeepsPosition(sb, blockEncode);
  }

  /** If the Block encoding agrees with the input outside bits 0x81, re-encoding reproduces the input. */
  lemma {:induction false} AgreeingInputReencodes(data: seq<byte>, sb: SimpleBlock, blockEncode: BlockEncoder)
    requires Readable(data) && FlagsPosition(data) < |data|
    requires sb.keyframe == IsKeyframe(data[FlagsPosition(data)])
    requires sb.discardable == IsDiscardable(data[FlagsPosition(data)])
    requires EncodesReadably(blockEncode(sb.block))
    requires AgreesOutsideSimpleBlockBits(blockEncode(sb.block).data, data, FlagsPosition(data))
    ensures EncodedBytes(sb, blockEncode) == data
  {
    var plain := blockEncode(sb.block).data;
    var position := FlagsPosition(data);
    var w := LeadingWidth(data);
    assert plain[..w] == data[..w];
    ReadVintPrefix(data, plain);
    var encoded := EncodedBytes(sb, blockEncode);
    assert encoded[position] == data[position];
    assert encoded == data;
  }

  /**
   * Re-encoding a decoded SimpleBlock reproduces the input bytes exactly
   * when the Block encoding of its block agrees with the input everywhere
   * except in the two SimpleBlock bits of the flags byte, which it may
   * leave clear.
   */
  lemma {:induction false} EncodeDecode(data: seq<byte>, blockDecode: BlockDecoder, blockEncode: BlockEncoder)
    requires Decode(Binary(data), blockDecode).Decoded?
    requires EncodesReadably(blockEncode(Decode(Binary(data), blockDecode).simpleBlock.block))
    ensures var sb := Decode(Binary(data), blockDecode).simpleBlock;
            var plain := blockEncode(sb.block).data;
            var position := FlagsPosition(data);
            EncodedBytes(sb, blockEncode) == data <==>
              && |plain| == |data|
              && (forall i | 0 <= i < |data| && i != position :: plain[i] == data[i])
              && plain[position] | (data[position] & 0x81) == data[position]
  {
    var sb := Decode(Binary(data), blockDecode).simpleBlock;
    if EncodedBytes(sb, blockEncode) == data {
      ReencodedInputAgrees(data, sb, blockEncode);
    }
    if AgreesOutsideSimpleBlockBits(blockEncode(sb.block).data, data, FlagsPosition(data)) {
      AgreeingInputReencodes(data, sb, blockEncode);
    }
  }

  /** The buffer of the source's `decode_encode_simple_block` test. */
  const TestBytes: seq<byte> := [0x81, 0x00, 0x01, 0x9d, 0x00, 0x00, 0x00]

  /**
   * The test buffer has a one-byte track number, so its flags byte is 0x9d
   * at index 3, which sets both the keyframe and the discardable bit.
   */
  lemma TestVectorDecode(blockDecode: BlockDecoder)
    requires blockDecode(Binary(TestBytes)).Ok?
    ensures ReadVint(TestBytes) == Ok(Some(Vint(1, 1)))
    ensures FlagsPosition(TestBytes) == 3
    ensures Decode(Binary(TestBytes), blockDecode)
            == Decoded(SimpleBlock(blockDecode(Binary(TestBytes)).value, true, true))
  {
    assert TestBytes[..1] == [0x81];
    assert BigEndian([]) == 0;
    Pow2Table();
  }

  /**
   * Re-encoding the decoded test block gives back the test buffer when the
   * Block encoder emits it with a flags byte that, with 0x81 ORed in, is 0x9d.
   */
  lemma TestVectorReencode(blockDecode: BlockDecoder, blockEncode: BlockEncoder, plainFlags: byte)
    requires blockDecode(Binary(TestBytes)).Ok?
    requires blockEncode(blockDecode(Binary(TestBytes)).value) == Binary(TestBytes[3 := plainFlags])
    requires plainFlags | 0x81 == 0x9d
    ensures EncodedBytes(SimpleBlock(blockDecode(Binary(TestBytes)).value, true, true), blockEncode) == TestBytes
  {
    TestVectorDecode(blockDecode);
    var plain := TestBytes[3 := plainFlags];
    assert plain[..1] == TestBytes[..1];
    ReadVintPrefix(TestBytes, plain);
    EncodeDecode(TestBytes, blockDecode, blockEncode);
  }

  /** As written, a three-byte buffer with a one-byte track number makes `try_from` index past its end. */
  lemma ShortBufferPanics(blockDecode: BlockDecoder)
    ensures Decode(Binary([0x81, 0x00, 0x01]), blockDecode) == OutOfBounds(3)
  {
    assert [0x81, 0x00, 0x01][..1] == [0x81 as byte];
    Pow2Table();
  }

  /** With the bounds check, every buffer too short to hold the header is an error. */
  lemma DecodeCheckedShortFails(data: seq<byte>, blockDecode: BlockDecoder)
    requires |data| <= 3
    ensures DecodeChecked(Binary(data), blockDecode) == Err(SimpleBlockCoercionError)
  {
  }
}
