/**
 * What the framer promises: the shape of a successful decode, how a section
 * header fixes its byte order, the length rule, the exact shortfall of an
 * incomplete buffer, the agreement of the stream and slice paths, and that
 * reading back what was written gives the block back.
 */
module FramingProperties {
  import opened ByteOrder
  import opened Errors
  import opened BlockTypes
  import opened Blocks

  /** The header is fixed by the first 12 bytes alone. */
  lemma HeaderOfPrefix(order: Endianness, input: seq<byte>, more: seq<byte>)
    requires 12 <= |input|
    ensures Header(order, input + more) == Header(order, input)
  {
    var whole := input + more;
    assert whole[..4] == input[..4];
    assert whole[4..8] == input[4..8];
    assert whole[8..12] == input[8..12];
  }

  /** For a block that passed the header, the total length is its leading length field read in the block's own order. */
  lemma HeaderLength(order: Endianness, input: seq<byte>)
    requires 12 <= |input| && Header(order, input).Ok?
    ensures var (t, e, len) := Header(order, input).value;
            && t == FromCode(DecodeU32(order, input[..4]))
            && len == DecodeU32(e, input[4..8])
            && (t != SectionHeader ==> e == order)
            && (t == SectionHeader ==> SectionOrder(DecodeU32(Big, input[8..12])) == Some(e))
  {
    SwapReadsOtherOrder(input[4..8]);
  }

  /**
   * A successful slice decode: the lengths agree, are aligned and at least
   * 12; the body is the bytes between the leading length and the trailer;
   * the remainder is everything after the block; every length field reads
   * the same in the block's recorded order, which is the caller's order
   * unless the block is a section header.
   */
  lemma SliceDecodeOk(order: Endianness, input: seq<byte>)
    requires SliceDecode(order, input).Ok?
    ensures var (rem, b) := SliceDecode(order, input).value;
            var len := b.initialLen;
            && len == b.trailerLen
            && len % 4 == 0 && 12 <= len <= |input|
            && b.body == input[8..len - 4] && |b.body| == len - 12
            && rem == input[len..]
            && b.blockType == FromCode(DecodeU32(order, input[..4]))
            && len == DecodeU32(b.endianness, input[4..8])
            && b.trailerLen == DecodeU32(b.endianness, input[len - 4..len])
            && (b.blockType != SectionHeader ==> b.endianness == order)
  {
    HeaderLength(order, input);
  }

  /** A leading length that breaks the length rule is rejected the same way by both decode paths. */
  lemma LengthRule(order: Endianness, input: seq<byte>)
    requires 12 <= |input| && Header(order, input).Ok?
    ensures var len := Header(order, input).value.2;
            && (len % 4 != 0 ==>
                  SliceDecode(order, input) == Err(InvalidField(Misaligned)) &&
                  StreamDecode(order, input).0 == Err(InvalidField(Misaligned)))
            && (len % 4 == 0 && len < 12 ==>
                  SliceDecode(order, input) == Err(InvalidField(TooShort)) &&
                  StreamDecode(order, input).0 == Err(InvalidField(TooShort)))
  {
  }

  /** A leading length that disagrees with the trailer is rejected by both decode paths. */
  lemma TrailerMismatch(order: Endianness, input: seq<byte>)
    requires 12 <= |input| && Header(order, input).Ok?
    requires var (_, e, len) := Header(order, input).value;
             LengthError(len).None? && len <= |input| && DecodeU32(e, input[len - 4..len]) != len
    ensures SliceDecode(order, input) == Err(InvalidField(LengthMismatch))
    ensures ShortSectionHeader(order, input) ==> StreamDecode(order, input).0 == Err(IoError(WriteZero))
    ensures !ShortSectionHeader(order, input) ==> StreamDecode(order, input).0 == Err(InvalidField(LengthMismatch))
  {
    if ShortSectionHeader(order, input) {
      ShortSectionHeaderRejected(order, input);
    }
  }

  /**
   * The section header magic decides the byte order: 0x1A2B3C4D big-endian,
   * 0x4D3C2B1A little-endian, anything else is an invalid field. A section
   * header that decodes has a body of at least four bytes that starts with
   * the magic, on either path.
   */
  lemma SectionHeaderOrder(order: Endianness, input: seq<byte>)
    requires 12 <= |input| && FromCode(DecodeU32(order, input[..4])) == SectionHeader
    ensures var magic := DecodeU32(Big, input[8..12]);
            && (magic != BigMagic && magic != LittleMagic ==>
                  SliceDecode(order, input) == Err(InvalidField(BadMagic)) &&
                  StreamDecode(order, input).0 == Err(InvalidField(BadMagic)))
            && (SliceDecode(order, input).Ok? ==>
                  var b := SliceDecode(order, input).value.1;
                  && b.endianness == (if magic == BigMagic then Big else Little)
                  && 4 <= |b.body| && b.body[..4] == input[8..12])
  {
    var magic := DecodeU32(Big, input[8..12]);
    if SectionOrder(magic).None? {
      assert SliceDecode(order, input) == Err(InvalidField(BadMagic));
      assert StreamSectionHeader(input).0 == Err(InvalidField(BadMagic));
    } else if SliceDecode(order, input).Ok? {
      var e := Header(order, input).value.1;
      var len := Header(order, input).value.2;
      assert e == SectionOrder(magic).value;
      if len == 12 {
        ShortSectionHeaderRejected(order, input);
      } else {
        assert SliceDecode(order, input) == SliceEnvelope(SectionHeader, e, len, input);
        EnvelopeBodyPrefix(SectionHeader, e, len, input);
      }
    }
  }

  /** A decoded envelope longer than 12 bytes has a body that starts with the four bytes after the length. */
  lemma EnvelopeBodyPrefix(t: BlockType, e: Endianness, len: u32, input: seq<byte>)
    requires 8 <= |input| && SliceEnvelope(t, e, len, input).Ok? && len != 12
    ensures var body := SliceEnvelope(t, e, len, input).value.1.body;
            4 <= |body| && body[..4] == input[8..12]
  {
    AlignedPastMinimum(len);
    assert input[8..len - 4][..4] == input[8..12];
  }

  /** A section header of total length 12 has no room for its magic: both paths reject it. */
  lemma ShortSectionHeaderRejected(order: Endianness, input: seq<byte>)
    requires ShortSectionHeader(order, input)
    ensures SliceDecode(order, input) == Err(InvalidField(LengthMismatch))
    ensures StreamDecode(order, input) == (Err(IoError(WriteZero)), 12)
  {
    var e := Header(order, input).value.1;
    MagicReadsInItsOrder(input[8..12], e);
    assert SliceEnvelope(SectionHeader, e, 12, input) == Err(InvalidField(LengthMismatch));
  }

  /** A valid magic, read in the order it announces, is 0x1A2B3C4D. */
  lemma MagicReadsInItsOrder(s: seq<byte>, e: Endianness)
    requires |s| == 4 && SectionOrder(DecodeU32(Big, s)) == Some(e)
    ensures DecodeU32(e, s) == BigMagic
  {
    if e == Little {
      assert s == EncodeU32(Big, LittleMagic);
      assert s == [0x4D, 0x3C, 0x2B, 0x1A];
    } else {
      assert s == EncodeU32(Big, BigMagic);
    }
  }

  /** Every `IncompleteBuffer` asks for exactly the bytes missing from the header or from the whole block. */
  lemma IncompleteIsShortfall(order: Endianness, input: seq<byte>)
    requires SliceDecode(order, input).Err? && SliceDecode(order, input).error.IncompleteBuffer?
    ensures var n := SliceDecode(order, input).error.needed;
            && 0 < n
            && (|input| < 12 ==> n == 12 - |input|)
            && (12 <= |input| ==> Header(order, input).Ok? && n == Header(order, input).value.2 - |input|)
  {
  }

  /**
   * After an `IncompleteBuffer(n)` past the header, fewer than `n` more
   * bytes still fall short by exactly the difference, and `n` or more get
   * past the check; exactly `n` more leave nothing after the block.
   */
  lemma {:induction false} ShortfallIsExact(order: Endianness, input: seq<byte>, extra: seq<byte>)
    requires 12 <= |input|
    requires SliceDecode(order, input).Err? && SliceDecode(order, input).error.IncompleteBuffer?
    ensures var n := SliceDecode(order, input).error.needed;
            var r := SliceDecode(order, input + extra);
            && (|extra| < n ==> r == Err(IncompleteBuffer(n - |extra|)))
            && (n <= |extra| ==> !(r.Err? && r.error.IncompleteBuffer?))
            && (n == |extra| && r.Ok? ==> r.value.0 == [])
  {
    HeaderOfPrefix(order, input, extra);
  }

  /**
   * Before the header is complete, appending fewer bytes than the reported
   * shortfall still falls short of the header by exactly the difference.
   */
  lemma HeaderShortfallIsExact(order: Endianness, input: seq<byte>, extra: seq<byte>)
    requires |input| < 12 && |extra| < 12 - |input|
    ensures SliceDecode(order, input) == Err(IncompleteBuffer(12 - |input|))
    ensures SliceDecode(order, input + extra) == Err(IncompleteBuffer(12 - |input| - |extra|))
  {
  }

  /**
   * The stream and slice paths accept the same inputs and produce the same
   * block, the stream path consuming exactly the block; they differ only in
   * how a short input is reported (end of stream against `IncompleteBuffer`,
   * or an invalid length the stream path sees before the twelfth byte) and
   * in a 12-byte section header (a failed write of the magic against a
   * trailer mismatch).
   */
  lemma StreamAgreesWithSlice(order: Endianness, input: seq<byte>)
    ensures PathsAgree(order, input)
  {
    if 12 <= |input| {
      if FromCode(DecodeU32(order, input[..4])) == SectionHeader {
        SectionHeaderPathsAgree(order, input);
      } else {
        CommonPathsAgree(order, input);
      }
    }
  }

  /** The case of `StreamAgreesWithSlice` for every block type but the section header. */
  lemma CommonPathsAgree(order: Endianness, input: seq<byte>)
    requires 12 <= |input| && FromCode(DecodeU32(order, input[..4])) != SectionHeader
    ensures PathsAgree(order, input)
  {
    var t := FromCode(DecodeU32(order, input[..4]));
    var len := DecodeU32(order, input[4..8]);
    assert SliceDecode(order, input) == SliceEnvelope(t, order, len, input);
    assert StreamDecode(order, input) == StreamCommon(order, t, input);
    if LengthError(len).Some? {
      BothReject(order, input, LengthError(len).value);
    } else if |input| < len {
      BothRunShort(order, input, len - |input|);
    } else if len != DecodeU32(order, input[len - 4..len]) {
      BothReject(order, input, InvalidField(LengthMismatch));
    } else {
      assert [] + input[8..len - 4] == input[8..len - 4];
      var b := Block(t, len, input[8..len - 4], len, order);
      BothDecode(order, input, input[len..], b);
    }
  }

  /** `PathsAgree` when both paths decode the same block. */
  lemma BothDecode(order: Endianness, input: seq<byte>, rest: seq<byte>, b: Block)
    requires SliceDecode(order, input) == Ok((rest, b))
    requires StreamDecode(order, input) == (Ok(b), |input| - |rest|)
    ensures PathsAgree(order, input)
  {
  }

  /** `PathsAgree` when both paths reject the block with the same field error. */
  lemma BothReject(order: Endianness, input: seq<byte>, err: PcapError)
    requires err.InvalidField? && SliceDecode(order, input) == Err(err)
    requires StreamDecode(order, input).0 == Err(err)
    ensures PathsAgree(order, input)
  {
  }

  /** `PathsAgree` when the buffer is short and the stream ends early. */
  lemma BothRunShort(order: Endianness, input: seq<byte>, needed: nat)
    requires SliceDecode(order, input) == Err(IncompleteBuffer(needed))
    requires StreamDecode(order, input).0 == Err(IoError(UnexpectedEof))
    ensures PathsAgree(order, input)
  {
  }

  /** What `StreamAgreesWithSlice` proves about one input. */
  predicate PathsAgree(order: Endianness, input: seq<byte>)
  {
    var s := SliceDecode(order, input);
    var res := StreamDecode(order, input).0;
    var used := StreamDecode(order, input).1;
    && (res.Ok? <==> s.Ok?)
    && (s.Ok? ==> res.value == s.value.1 && used == |input| - |s.value.0|)
    && (s.Err? && s.error.InvalidField? ==>
          res == Err(s.error) ||
          (&& res == Err(IoError(WriteZero)) && s.error == InvalidField(LengthMismatch)
           && ShortSectionHeader(order, input)))
    && (res == Err(IoError(WriteZero)) ==> ShortSectionHeader(order, input))
    && (s.Err? && s.error.IncompleteBuffer? ==>
          res == Err(IoError(UnexpectedEof)) ||
          (&& |input| < 12 && res.Err? && res.error.InvalidField?
           && res.error.reason in {Misaligned, TooShort}))
  }

  /** A section header with a valid magic whose total length is 12, leaving no room for the magic in its body. */
  predicate ShortSectionHeader(order: Endianness, input: seq<byte>)
  {
    && 12 <= |input| && Header(order, input).Ok?
    && Header(order, input).value.0 == SectionHeader && Header(order, input).value.2 == 12
  }

  /** Both decoders, for a section header whose header was read, in terms of its order and length. */
  lemma SectionHeaderUnfolds(order: Endianness, input: seq<byte>)
    requires 12 <= |input| && Header(order, input).Ok? && Header(order, input).value.0 == SectionHeader
    ensures var e := Header(order, input).value.1;
            var len := Header(order, input).value.2;
            && SliceDecode(order, input) == SliceEnvelope(SectionHeader, e, len, input)
            && StreamDecode(order, input) ==
                 if LengthError(len).Some? then (Err(LengthError(len).value), 12)
                 else if len - 12 < 4 then (Err(IoError(WriteZero)), 12)
                 else StreamEnvelope(SectionHeader, e, len, input[8..12], input)
  {
    var magic := DecodeU32(Big, input[8..12]);
    assert EncodeU32(Big, magic) == input[8..12];
  }

  /** The section-header case of `StreamAgreesWithSlice`. */
  lemma SectionHeaderPathsAgree(order: Endianness, input: seq<byte>)
    requires 12 <= |input| && FromCode(DecodeU32(order, input[..4])) == SectionHeader
    ensures PathsAgree(order, input)
  {
    if SectionOrder(DecodeU32(Big, input[8..12])).None? {
      assert SliceDecode(order, input) == Err(InvalidField(BadMagic));
      assert StreamDecode(order, input).0 == Err(InvalidField(BadMagic));
      BothReject(order, input, InvalidField(BadMagic));
    } else {
      var e := Header(order, input).value.1;
      var len := Header(order, input).value.2;
      SectionHeaderUnfolds(order, input);
      if LengthError(len).Some? {
        BothReject(order, input, LengthError(len).value);
      } else if len == 12 {
        ShortSectionHeaderRejected(order, input);
      } else if len <= |input| {
        WholeSectionHeaderAgrees(order, input, e, len);
      } else {
        BothRunShort(order, input, len - |input|);
      }
    }
  }

  /** Two adjacent slices of a sequence make up the slice spanning both. */
  lemma Rejoin(s: seq<byte>, a: nat, b: nat, c: nat)
    requires a <= b <= c <= |s|
    ensures s[a..b] + s[b..c] == s[a..c]
  {
  }

  /** A valid length other than the minimum leaves room for at least one word of body. */
  lemma AlignedPastMinimum(len: u32)
    requires LengthError(len).None? && 12 < len
    ensures 16 <= len
  {
    assert len == 4 * (len / 4);
  }

  /** A section header with a valid magic and length, all of it present: both paths read the same body. */
  lemma WholeSectionHeaderAgrees(order: Endianness, input: seq<byte>, e: Endianness, len: u32)
    requires 12 <= |input| && Header(order, input).Ok? && Header(order, input).value.0 == SectionHeader
    requires Header(order, input).value.1 == e && Header(order, input).value.2 == len
    requires LengthError(len).None? && 12 < len <= |input|
    ensures PathsAgree(order, input)
  {
    SectionHeaderUnfolds(order, input);
    AlignedPastMinimum(len);
    var body := input[8..12] + input[12..len - 4];
    Rejoin(input, 8, 12, len - 4);
    var trailer := DecodeU32(e, input[len - 4..len]);
    if len == trailer {
      BothDecode(order, input, input[len..], Block(SectionHeader, len, body, trailer, e));
    } else {
      BothReject(order, input, InvalidField(LengthMismatch));
    }
  }

  /**
   * The blocks `Serialize` can be read back from: consistent aligned
   * lengths, a tag `FromCode` produces, recorded in the order it is written
   * in, and, for a section header, a body that starts with the magic
   * written in that order.
   */
  predicate Writable(order: Endianness, b: Block)
  {
    && b.initialLen == b.trailerLen == |b.body| + 12
    && |b.body| % 4 == 0
    && IsCanonical(b.blockType)
    && b.endianness == order
    && (b.blockType == SectionHeader ==>
          4 <= |b.body| && b.body[..4] == EncodeU32(order, BigMagic))
  }

  /**
   * Reading back what `write_to` wrote gives the block and the bytes after
   * it. A section header reads back in any caller order, since its type code
   * is the same in both orders and its magic fixes the rest; every other
   * block reads back in the order it was written in.
   */
  lemma {:induction false} RoundTrip(order: Endianness, readOrder: Endianness, b: Block, rest: seq<byte>)
    requires Writable(order, b)
    requires b.blockType != SectionHeader ==> readOrder == order
    ensures SliceDecode(readOrder, Serialize(order, b) + rest) == Ok((rest, b))
  {
    RoundTripHeader(order, readOrder, b, rest);
    RoundTripEnvelope(order, b, rest);
  }

  /** The body and trailer of a serialized block give back the block and what follows it. */
  lemma RoundTripEnvelope(order: Endianness, b: Block, rest: seq<byte>)
    requires Writable(order, b)
    ensures SliceEnvelope(b.blockType, order, b.initialLen, Serialize(order, b) + rest) == Ok((rest, b))
  {
    SerializedFields(order, b, rest);
    DecodeEncode(order, b.trailerLen);
  }

  /** Where the fields of a serialized block sit. */
  lemma SerializedFields(order: Endianness, b: Block, rest: seq<byte>)
    requires b.initialLen == |b.body| + 12
    ensures var input := Serialize(order, b) + rest;
            var len := b.initialLen;
            && input[..4] == EncodeU32(order, ToCode(b.blockType))
            && input[4..8] == EncodeU32(order, len)
            && input[8..len - 4] == b.body
            && (4 <= |b.body| ==> input[8..12] == b.body[..4])
            && input[len - 4..len] == EncodeU32(order, b.trailerLen)
            && input[len..] == rest
  {
    var input := Serialize(order, b) + rest;
    if 4 <= |b.body| {
      assert input[8..12] == input[8..b.initialLen - 4][..4];
    }
  }

  /** The header of a serialized block gives back its tag, its order and its length. */
  lemma RoundTripHeader(order: Endianness, readOrder: Endianness, b: Block, rest: seq<byte>)
    requires Writable(order, b)
    requires b.blockType != SectionHeader ==> readOrder == order
    ensures Header(readOrder, Serialize(order, b) + rest) == Ok((b.blockType, order, b.initialLen))
  {
    var input := Serialize(order, b) + rest;
    var len := b.initialLen;
    SerializedFields(order, b, rest);
    DecodeEncode(order, len);
    TagRoundTrip(b.blockType);
    if b.blockType == SectionHeader {
      SectionHeaderCodeIsPalindrome(order, readOrder);
      SectionMagicRead(order);
      if order == Little {
        SwapReadsOtherOrder(input[4..8]);
        SwapBytesInvolutive(len);
      }
    } else {
      DecodeEncode(order, ToCode(b.blockType));
    }
  }

  /** The magic written in order `e` announces `e` when read big-endian. */
  lemma SectionMagicRead(e: Endianness)
    ensures SectionOrder(DecodeU32(Big, EncodeU32(e, BigMagic))) == Some(e)
  {
  }

  /** The stream path reads back what `write_to` wrote, consuming exactly the block. */
  lemma StreamRoundTrip(order: Endianness, readOrder: Endianness, b: Block, rest: seq<byte>)
    requires Writable(order, b)
    requires b.blockType != SectionHeader ==> readOrder == order
    ensures StreamDecode(readOrder, Serialize(order, b) + rest) == (Ok(b), |b.body| + 12)
  {
    RoundTrip(order, readOrder, b, rest);
    StreamAgreesWithSlice(readOrder, Serialize(order, b) + rest);
  }

  /**
   * What `write_block_to` writes is a well-formed block: decoding it gives
   * the body back, with both lengths equal to the body length plus 12.
   */
  lemma WriteBlockRoundTrip(order: Endianness, t: BlockType, body: seq<byte>, rest: seq<byte>)
    requires IsCanonical(t) && |body| % 4 == 0 && |body| + 12 < 0x1_0000_0000
    requires t == SectionHeader ==> 4 <= |body| && body[..4] == EncodeU32(order, BigMagic)
    ensures SliceDecode(order, Serialize(order, Frame(order, t, body)) + rest)
            == Ok((rest, Block(t, |body| + 12, body, |body| + 12, order)))
  {
    RoundTrip(order, order, Frame(order, t, body), rest);
  }

  /** A big-endian section header of 28 bytes: magic, version 1.0, unknown section length. */
  const ExampleSectionBody: seq<byte> :=
    [0x1A, 0x2B, 0x3C, 0x4D] + [0, 1, 0, 0] + [0xFF, 0xFF, 0xFF, 0xFF] + [0xFF, 0xFF, 0xFF, 0xFF]
  const ExampleSection: seq<byte> :=
    [0x0A, 0x0D, 0x0D, 0x0A] + [0, 0, 0, 28] + ExampleSectionBody + [0, 0, 0, 28]

  /** A big-endian interface description of 20 bytes: link type 1, snap length 0xFFFF. */
  const ExampleInterfaceBody: seq<byte> := [0, 1, 0, 0] + [0, 0, 0xFF, 0xFF]
  const ExampleInterface: seq<byte> :=
    [0, 0, 0, 1] + [0, 0, 0, 20] + ExampleInterfaceBody + [0, 0, 0, 20]

  /** The example section header decodes, in either caller order, whatever follows it. */
  lemma ExampleSectionDecodes(order: Endianness, rest: seq<byte>)
    ensures SliceDecode(order, ExampleSection + rest)
            == Ok((rest, Block(SectionHeader, 28, ExampleSectionBody, 28, Big)))
  {
    var b := Block(SectionHeader, 28, ExampleSectionBody, 28, Big);
    assert EncodeU32(Big, SectionHeaderCode) == [0x0A, 0x0D, 0x0D, 0x0A];
    assert EncodeU32(Big, 28) == [0, 0, 0, 28];
    assert ExampleSection == Serialize(Big, b);
    assert ExampleSectionBody[..4] == EncodeU32(Big, BigMagic);
    RoundTrip(Big, order, b, rest);
  }


  /** The example interface description decodes big-endian, whatever follows it. */
  lemma ExampleInterfaceDecodes(rest: seq<byte>)
    ensures SliceDecode(Big, ExampleInterface + rest)
            == Ok((rest, Block(InterfaceDescription, 20, ExampleInterfaceBody, 20, Big)))
  {
    var b := Block(InterfaceDescription, 20, ExampleInterfaceBody, 20, Big);
    assert EncodeU32(Big, 1) == [0, 0, 0, 1];
    assert EncodeU32(Big, 20) == [0, 0, 0, 20];
    assert ExampleInterface == Serialize(Big, b);
    RoundTrip(Big, Big, b, rest);
  }


  /**
   * A buffer holding a section header followed by an interface description
   * decodes block by block: first the section header with the interface
   * description as the rest, then the interface description with nothing left.
   */
  lemma TwoBlockBuffer(order: Endianness)
    ensures SliceDecode(order, ExampleSection + ExampleInterface)
            == Ok((ExampleInterface, Block(SectionHeader, 28, ExampleSectionBody, 28, Big)))
    ensures SliceDecode(Big, ExampleInterface)
            == Ok(([], Block(InterfaceDescription, 20, ExampleInterfaceBody, 20, Big)))
  {
    ExampleSectionDecodes(order, ExampleInterface);
    ExampleInterfaceDecodes([]);
    assert ExampleInterface + [] == ExampleInterface;
  }
}
