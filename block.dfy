/**
 * The generic PcapNG block framer.
 *
 * Every block has the same envelope: a 4-byte type code, a 4-byte total
 * length, the body, and the total length again as a trailer. The total
 * length counts the whole envelope, so the body is 12 bytes shorter; it is a
 * multiple of 4 and at least 12. All fields are read in the byte order the
 * caller gives, except in a section header block, whose own magic number
 * (the first four bytes of its body) announces the order of its section.
 *
 * `SliceDecode` and `StreamDecode` define, by offsets into the input, what
 * the two decode paths return; `FromSlice` and `FromReader` are the cursor
 * and reader based procedures, proved to return exactly that.
 */
module Blocks {
  import opened ByteOrder
  import opened Errors
  import opened BlockTypes
  import opened Streams

  /** One decoded envelope; `endianness` is the order its fields were read in. */
  datatype Block = Block(
    blockType: BlockType,
    initialLen: u32,
    body: seq<byte>,
    trailerLen: u32,
    endianness: Endianness)

  /** The section header magic, read big-endian, in a big- and in a little-endian section. */
  const BigMagic: u32 := 0x1A2B3C4D
  const LittleMagic: u32 := 0x4D3C2B1A

  const BadMagic := "SectionHeaderBlock: invalid magic number"
  const Misaligned := "Block: (initial_len % 4) != 0"
  const TooShort := "Block: initial_len < 12"
  const LengthMismatch := "Block initial_length != trailer_length"

  /** The byte order a section header magic (read big-endian) announces, if any. */
  function SectionOrder(magic: u32): (r: Option<Endianness>)
    ensures r.Some? <==> magic == BigMagic || magic == LittleMagic
    ensures r == Some(Little) <==> magic == LittleMagic
  {
    if magic == BigMagic then Some(Big)
    else if magic == LittleMagic then Some(Little)
    else None
  }

  /** The rule every total length must meet, checked first for alignment, then for size. */
  function LengthError(len: u32): (r: Option<PcapError>)
    ensures r.None? <==> len % 4 == 0 && 12 <= len
    ensures r.Some? ==> r.value.InvalidField?
  {
    if len % 4 != 0 then Some(InvalidField(Misaligned))
    else if len < 12 then Some(InvalidField(TooShort))
    else None
  }

  /**
   * Tag, byte order in force and total length of the block whose first 12
   * bytes `input` starts with. A section header's length is read big-endian
   * and byte-swapped when its magic says little-endian.
   */
  function Header(order: Endianness, input: seq<byte>): (r: Result<(BlockType, Endianness, u32)>)
    requires 12 <= |input|
    ensures r.Err? <==>
              FromCode(DecodeU32(order, input[..4])) == SectionHeader &&
              SectionOrder(DecodeU32(Big, input[8..12])).None?
    ensures r.Err? ==> r.error == InvalidField(BadMagic)
    ensures r.Ok? ==> r.value.0 == FromCode(DecodeU32(order, input[..4]))
    ensures r.Ok? && r.value.0 != SectionHeader ==> r.value.1 == order
  {
    var t := FromCode(DecodeU32(order, input[..4]));
    if t == SectionHeader then
      match SectionOrder(DecodeU32(Big, input[8..12]))
      case None => Err(InvalidField(BadMagic))
      case Some(e) =>
        var raw := DecodeU32(Big, input[4..8]);
        Ok((t, e, if e == Little then SwapBytes(raw) else raw))
    else
      Ok((t, order, DecodeU32(order, input[4..8])))
  }

  /**
   * What decoding one block from the front of an in-memory buffer returns:
   * the bytes after the block and the block, whose body is the bytes between
   * the leading length and the trailer.
   */
  function SliceDecode(order: Endianness, input: seq<byte>): (r: Result<(seq<byte>, Block)>)
    ensures r.Ok? ==> |r.value.0| + 12 <= |input| && r.value.0 == input[|input| - |r.value.0|..]
    ensures r.Err? && r.error.IncompleteBuffer? ==> 0 < r.error.needed
  {
    if |input| < 12 then Err(IncompleteBuffer(12 - |input|))
    else
      match Header(order, input)
      case Err(err) => Err(err)
      case Ok((t, e, len)) => SliceEnvelope(t, e, len, input)
  }

  /** The rest of `SliceDecode` once the tag, order and length are known. */
  function SliceEnvelope(t: BlockType, e: Endianness, len: u32, input: seq<byte>): (r: Result<(seq<byte>, Block)>)
    requires 8 <= |input|
    ensures r.Ok? ==>
              && LengthError(len).None? && len <= |input|
              && r.value.0 == input[len..]
              && r.value.1.initialLen == r.value.1.trailerLen == len == |r.value.1.body| + 12
    ensures r.Err? && r.error.IncompleteBuffer? ==> 0 < r.error.needed == len - |input|
  {
    if LengthError(len).Some? then Err(LengthError(len).value)
    else if |input| < len then Err(IncompleteBuffer(len - |input|))
    else
      var trailer := DecodeU32(e, input[len - 4..len]);
      if len != trailer then Err(InvalidField(LengthMismatch))
      else Ok((input[len..], Block(t, len, input[8..len - 4], trailer, e)))
  }

  /**
   * What decoding one block from a stream whose remaining bytes are `input`
   * returns, with the number of bytes it consumes. A read past the end
   * consumes the rest of the stream and fails.
   */
  function StreamDecode(order: Endianness, input: seq<byte>): (r: (Result<Block>, nat))
    ensures r.1 <= |input|
    ensures r.0.Ok? ==> r.1 == r.0.value.initialLen == |r.0.value.body| + 12
    ensures r.0 == Err(IoError(UnexpectedEof)) ==> r.1 == |input|
  {
    if |input| < 4 then (Err(IoError(UnexpectedEof)), |input|)
    else
      var t := FromCode(DecodeU32(order, input[..4]));
      if t == SectionHeader then StreamSectionHeader(input)
      else StreamCommon(order, t, input)
  }

  /**
   * The section header case of `StreamDecode`: the body is the magic,
   * re-encoded big-endian, followed by the bytes after the magic; a body too
   * short to hold the magic fails as a write error.
   */
  function StreamSectionHeader(input: seq<byte>): (r: (Result<Block>, nat))
    ensures r.1 <= |input|
    ensures r.0.Ok? ==> r.1 == r.0.value.initialLen == |r.0.value.body| + 12
    ensures r.0.Ok? ==>
              && r.0.value.blockType == SectionHeader
              && 4 <= |r.0.value.body| && 12 <= |input| && r.0.value.body[..4] == input[8..12]
    ensures r.0 == Err(IoError(UnexpectedEof)) ==> r.1 == |input|
  {
    if |input| < 12 then (Err(IoError(UnexpectedEof)), |input|)
    else
      var magic := DecodeU32(Big, input[8..12]);
      match SectionOrder(magic)
      case None => (Err(InvalidField(BadMagic)), 12)
      case Some(e) =>
        var raw := DecodeU32(Big, input[4..8]);
        var len := if e == Little then SwapBytes(raw) else raw;
        if LengthError(len).Some? then (Err(LengthError(len).value), 12)
        else if len - 12 < 4 then (Err(IoError(WriteZero)), 12)
        else StreamEnvelope(SectionHeader, e, len, EncodeU32(Big, magic), input)
  }

  /** Every other case of `StreamDecode`: all fields in the caller's order. */
  function StreamCommon(order: Endianness, t: BlockType, input: seq<byte>): (r: (Result<Block>, nat))
    ensures r.1 <= |input|
    ensures r.0.Ok? ==> r.1 == r.0.value.initialLen == |r.0.value.body| + 12
    ensures r.0.Ok? ==> r.0.value.blockType == t && r.0.value.endianness == order
    ensures r.0 == Err(IoError(UnexpectedEof)) ==> r.1 == |input|
  {
    if |input| < 8 then (Err(IoError(UnexpectedEof)), |input|)
    else
      var len := DecodeU32(order, input[4..8]);
      if LengthError(len).Some? then (Err(LengthError(len).value), 8)
      else StreamEnvelope(t, order, len, [], input)
  }

  /**
   * Reading the body and the trailer of a block of total length `len`, whose
   * body starts with `head` (already in hand) and continues at offset
   * `8 + |head|` of the stream.
   */
  function StreamEnvelope(t: BlockType, e: Endianness, len: u32, head: seq<byte>, input: seq<byte>)
    : (r: (Result<Block>, nat))
    requires 8 + |head| <= |input| && 12 + |head| <= len
    ensures r.1 <= |input|
    ensures r.0.Err? ==> r.0.error in {IoError(UnexpectedEof), InvalidField(LengthMismatch)}
    ensures r.0 == Err(IoError(UnexpectedEof)) <==> |input| < len
    ensures r.0 == Err(IoError(UnexpectedEof)) ==> r.1 == |input|
    ensures r.0.Ok? ==>
              && r.1 == r.0.value.initialLen == r.0.value.trailerLen == len == |r.0.value.body| + 12
              && r.0.value.body[..|head|] == head
  {
    if |input| < len then (Err(IoError(UnexpectedEof)), |input|)
    else
      var trailer := DecodeU32(e, input[len - 4..len]);
      if len != trailer then (Err(InvalidField(LengthMismatch)), len)
      else (Ok(Block(t, len, head + input[8 + |head|..len - 4], trailer, e)), len)
  }

  /** The bytes `write_to` emits for `b` in order `order`. */
  function Serialize(order: Endianness, b: Block): (r: seq<byte>)
    ensures |r| == 12 + |b.body|
  {
    EncodeU32(order, ToCode(b.blockType)) + EncodeU32(order, b.initialLen)
      + b.body + EncodeU32(order, b.trailerLen)
  }

  /**
   * The envelope `write_block_to` puts around an encoded body: both length
   * fields hold the body length plus 12, truncated to 32 bits.
   */
  function Frame(order: Endianness, t: BlockType, body: seq<byte>): (b: Block)
    ensures b.initialLen == b.trailerLen
    ensures |body| + 12 < 0x1_0000_0000 ==> b.initialLen == |body| + 12
  {
    var len := (|body| + 12) % 0x1_0000_0000;
    Block(t, len, body, len, order)
  }

  /** Reads a `u32` off the front of a slice that holds at least four bytes (`read_u32` on `&[u8]`). */
  method ReadU32FromSlice(e: Endianness, slice: seq<byte>) returns (x: u32, rest: seq<byte>)
    requires 4 <= |slice|
    ensures x == DecodeU32(e, slice[..4]) && rest == slice[4..]
  {
    x := DecodeU32(e, slice[..4]);
    rest := slice[4..];
  }

  /**
   * Decodes one block from the front of `input` without copying
   * (`Block::from_slice`), advancing a cursor over the slice.
   */
  method FromSlice(order: Endianness, input: seq<byte>) returns (r: Result<(seq<byte>, Block)>)
    ensures r == SliceDecode(order, input)
  {
    var slice := input;
    if |slice| < 12 {
      return Err(IncompleteBuffer(12 - |slice|));
    }
    var code;
    code, slice := ReadU32FromSlice(order, slice);
    var t := FromCode(code);
    assert slice == input[4..];
    var initialLen;
    if t == SectionHeader {
      // The order is not known yet: the length is read big-endian.
      initialLen, slice := ReadU32FromSlice(Big, slice);
      assert slice == input[8..] && input[4..][..4] == input[4..8];
      var tmpSlice := slice;
      var magic;
      magic, tmpSlice := ReadU32FromSlice(Big, tmpSlice);
      assert slice[..4] == input[8..12];
      var e;
      if magic == BigMagic {
        e := Big;
      } else if magic == LittleMagic {
        e := Little;
      } else {
        return Err(InvalidField(BadMagic));
      }
      if e == Little {
        initialLen := SwapBytes(initialLen);
      }
      assert Header(order, input) == Ok((t, e, initialLen));
      r := SplitEnvelope(t, e, initialLen, slice, input);
    } else {
      initialLen, slice := ReadU32FromSlice(order, slice);
      assert slice == input[8..] && input[4..][..4] == input[4..8];
      assert Header(order, input) == Ok((t, order, initialLen));
      r := SplitEnvelope(t, order, initialLen, slice, input);
    }
  }

  /**
   * The part of `from_slice` both branches share: check the length, check
   * that the slice (positioned after the leading length) holds the rest of
   * the block, split off the body and read the trailer.
   */
  method SplitEnvelope(t: BlockType, e: Endianness, initialLen: u32, slice: seq<byte>, ghost input: seq<byte>)
    returns (r: Result<(seq<byte>, Block)>)
    requires 8 <= |input| && slice == input[8..]
    ensures r == SliceEnvelope(t, e, initialLen, input)
  {
    if initialLen % 4 != 0 {
      return Err(InvalidField(Misaligned));
    }
    if initialLen < 12 {
      return Err(InvalidField(TooShort));
    }
    if |slice| < initialLen - 8 {
      return Err(IncompleteBuffer(initialLen - 8 - |slice|));
    }
    r := SplitBody(t, e, initialLen, slice, input);
  }

  /** The body and trailer of a block whose length passed every check. */
  method SplitBody(t: BlockType, e: Endianness, initialLen: u32, slice: seq<byte>, ghost input: seq<byte>)
    returns (r: Result<(seq<byte>, Block)>)
    requires 8 <= |input| && slice == input[8..]
    requires LengthError(initialLen).None? && initialLen <= |input|
    ensures r == SliceEnvelope(t, e, initialLen, input)
  {
    var bodyLen := initialLen - 12;
    var body := slice[..bodyLen];
    var rem := slice[bodyLen..];
    StreamWindow(input, 8, 0, bodyLen);
    StreamWindow(input, 8, bodyLen, bodyLen + 4);
    var trailerLen;
    trailerLen, rem := ReadU32FromSlice(e, rem);
    assert rem == input[initialLen..];
    if initialLen != trailerLen {
      return Err(InvalidField(LengthMismatch));
    }
    return Ok((rem, Block(t, initialLen, body, trailerLen, e)));
  }

  /**
   * Decodes one block from a reader into an owned body (`Block::from_reader`).
   * The reader ends up past exactly the bytes `StreamDecode` says are consumed.
   */
  method FromReader(order: Endianness, reader: Reader) returns (r: Result<Block>)
    requires reader.Valid()
    modifies reader
    ensures reader.Valid()
    ensures (r, reader.pos - old(reader.pos)) == StreamDecode(order, old(reader.Remaining()))
  {
    ghost var input := reader.Remaining();
    ghost var start := reader.pos;
    var code :- reader.ReadU32(order);
    assert reader.data[start..start + 4] == input[..4];
    var t := FromCode(code);
    if t == SectionHeader {
      r := ReadSectionHeader(reader, input, start);
    } else {
      r := ReadCommon(order, t, reader, input, start);
    }
  }

  /** The section header branch of `from_reader`, entered after the type code. */
  method ReadSectionHeader(reader: Reader, ghost input: seq<byte>, ghost start: nat) returns (r: Result<Block>)
    requires reader.Valid() && 4 <= |input| && start + 4 == reader.pos
    requires input == reader.data[start..]
    modifies reader
    ensures reader.Valid()
    ensures (r, reader.pos - start) == StreamSectionHeader(input)
  {
    var initialLen :- reader.ReadU32(Big);
    assert reader.data[start + 4..start + 8] == input[4..8];
    var magic :- reader.ReadU32(Big);
    assert reader.data[start + 8..start + 12] == input[8..12];
    var e;
    if magic == BigMagic {
      e := Big;
    } else if magic == LittleMagic {
      e := Little;
    } else {
      return Err(InvalidField(BadMagic));
    }
    if e == Little {
      initialLen := SwapBytes(initialLen);
    }
    if initialLen % 4 != 0 {
      return Err(InvalidField(Misaligned));
    }
    if initialLen < 12 {
      return Err(InvalidField(TooShort));
    }
    r := ReadSectionBody(e, initialLen, magic, reader, input, start);
  }

  /** The rest of the section header branch, once its order and a valid length are known. */
  method ReadSectionBody(e: Endianness, initialLen: u32, magic: u32, reader: Reader, ghost input: seq<byte>, ghost start: nat)
    returns (r: Result<Block>)
    requires reader.Valid() && 12 <= |input| && start + 12 == reader.pos
    requires input == reader.data[start..] && LengthError(initialLen).None?
    modifies reader
    ensures reader.Valid()
    ensures (r, reader.pos - start) ==
              if initialLen - 12 < 4 then (Err(IoError(WriteZero)), 12)
              else StreamEnvelope(SectionHeader, e, initialLen, EncodeU32(Big, magic), input)
  {
    var body := new byte[initialLen - 12];
    // The magic was consumed with the header; it goes back at the front of the body.
    var written :- WriteU32ToBuffer(body, Big, magic);
    r := ReadEnvelope(SectionHeader, e, initialLen, reader, body, 4, input, start);
  }

  /** The common branch of `from_reader`, entered after the type code. */
  method ReadCommon(order: Endianness, t: BlockType, reader: Reader, ghost input: seq<byte>, ghost start: nat)
    returns (r: Result<Block>)
    requires reader.Valid() && 4 <= |input| && start + 4 == reader.pos
    requires input == reader.data[start..]
    modifies reader
    ensures reader.Valid()
    ensures (r, reader.pos - start) == StreamCommon(order, t, input)
  {
    var initialLen :- reader.ReadU32(order);
    assert reader.data[start + 4..start + 8] == input[4..8];
    if initialLen % 4 != 0 {
      return Err(InvalidField(Misaligned));
    }
    if initialLen < 12 {
      return Err(InvalidField(TooShort));
    }
    var body := new byte[initialLen - 12];
    r := ReadEnvelope(t, order, initialLen, reader, body, 0, input, start);
  }

  /** A window of the bytes after `start`, as a window of the whole stream. */
  lemma StreamWindow(data: seq<byte>, start: nat, a: nat, b: nat)
    requires start <= |data| && a <= b <= |data| - start
    ensures data[start..][a..b] == data[start + a..start + b]
  {
  }

  /**
   * The part of `from_reader` both branches share: fill the body after its
   * first `from` bytes, read the trailer and compare it with the leading length.
   */
  method ReadEnvelope(t: BlockType, e: Endianness, initialLen: u32, reader: Reader, body: array<byte>,
                      from: nat, ghost input: seq<byte>, ghost start: nat)
    returns (r: Result<Block>)
    requires reader.Valid() && start + 8 + from == reader.pos && input == reader.data[start..]
    requires body.Length + 12 == initialLen && from <= body.Length
    modifies reader, body
    ensures reader.Valid()
    ensures (r, reader.pos - start) == StreamEnvelope(t, e, initialLen, old(body[..from]), input)
  {
    ghost var head := body[..from];
    var filled := reader.ReadExact(body, from);
    if filled.Err? {
      return Err(filled.error);
    }
    StreamWindow(reader.data, start, 8 + from, initialLen - 4);
    assert body[..] == head + input[8 + from..initialLen - 4];
    r := ReadTrailer(t, e, initialLen, reader, body, input, start);
  }

  /** Reads the trailer after a body that was read in full, and checks it against the length. */
  method ReadTrailer(t: BlockType, e: Endianness, initialLen: u32, reader: Reader, body: array<byte>,
                     ghost input: seq<byte>, ghost start: nat)
    returns (r: Result<Block>)
    requires reader.Valid() && body.Length + 12 == initialLen && reader.pos == start + initialLen - 4
    requires input == reader.data[start..]
    modifies reader
    ensures reader.Valid()
    ensures if |input| < initialLen then r == Err(IoError(UnexpectedEof)) && reader.pos == |reader.data|
            else reader.pos - start == initialLen &&
                 var trailer := DecodeU32(e, input[initialLen - 4..initialLen]);
                 r == if initialLen != trailer then Err(InvalidField(LengthMismatch))
                      else Ok(Block(t, initialLen, body[..], trailer, e))
  {
    var trailerLen := reader.ReadU32(e);
    if trailerLen.Err? {
      return Err(trailerLen.error);
    }
    StreamWindow(reader.data, start, initialLen - 4, initialLen);
    if initialLen != trailerLen.value {
      return Err(InvalidField(LengthMismatch));
    }
    return Ok(Block(t, initialLen, body[..], trailerLen.value, e));
  }


  /**
   * Writes `b`'s envelope and body verbatim in order `order` (`Block::write_to`);
   * the lengths are written as stored, not recomputed.
   */
  method WriteTo(b: Block, order: Endianness, writer: Writer) returns (n: nat)
    modifies writer
    ensures writer.out == old(writer.out) + Serialize(order, b)
    ensures n == 12 + |b.body|
  {
    writer.WriteU32(order, ToCode(b.blockType));
    writer.WriteU32(order, b.initialLen);
    var _ := writer.Write(b.body);
    writer.WriteU32(order, b.trailerLen);
    n := 12 + |b.body|;
  }

  /**
   * Writes a block of type `t` whose body encodes as `body`
   * (`PcapNgBlock::write_block_to`): the length is measured from the body and
   * written in both length fields, so they always agree.
   */
  method WriteBlockTo(t: BlockType, body: seq<byte>, order: Endianness, writer: Writer) returns (len: nat)
    modifies writer
    ensures writer.out == old(writer.out) + Serialize(order, Frame(order, t, body))
    ensures len == |body| + 12
  {
    len := |body| + 12;
    var wireLen: u32 := len % 0x1_0000_0000;
    writer.WriteU32(order, ToCode(t));
    writer.WriteU32(order, wireLen);
    var _ := writer.Write(body);
    writer.WriteU32(order, wireLen);
  }
}
