/**
 * The parsed-block dispatcher.
 *
 * A block body is handed to the decoder of its type; the result is wrapped
 * in the variant of `ParsedBlock` for that type. The per-type decoders are
 * outside this model: they are the parameter `decode`, and what they produce
 * is the opaque type `V`. A body of an unknown type is never an error: it is
 * kept as an opaque record.
 */
module ParsedBlocks {
  import opened ByteOrder
  import opened Errors
  import BlockTypes
  import Blocks

  /**
   * The per-type body decoders (`SectionHeaderBlock::from_slice` and the
   * others): given a known type, a byte order and a body, the bytes left over
   * and the decoded value, or the decoder's own error.
   */
  type Decoder<V> = (BlockTypes.BlockType, Endianness, seq<byte>) -> Result<(seq<byte>, V)>

  /** A block of a type without a decoder: its tag, a total length and the raw body. */
  datatype UnknownBlock = UnknownBlock(blockType: BlockTypes.BlockType, length: u32, value: seq<byte>)

  datatype ParsedBlock<V> =
    | SectionHeader(sectionHeader: V)
    | InterfaceDescription(interfaceDescription: V)
    | Packet(packet: V)
    | SimplePacket(simplePacket: V)
    | NameResolution(nameResolution: V)
    | InterfaceStatistics(interfaceStatistics: V)
    | EnhancedPacket(enhancedPacket: V)
    | SystemdJournalExport(systemdJournalExport: V)
    | Unknown(unknown: UnknownBlock)

  /** The block type a parsed block is a variant for. */
  function TypeOf<V>(p: ParsedBlock<V>): BlockTypes.BlockType
  {
    match p
    case SectionHeader(_) => BlockTypes.SectionHeader
    case InterfaceDescription(_) => BlockTypes.InterfaceDescription
    case Packet(_) => BlockTypes.Packet
    case SimplePacket(_) => BlockTypes.SimplePacket
    case NameResolution(_) => BlockTypes.NameResolution
    case InterfaceStatistics(_) => BlockTypes.InterfaceStatistics
    case EnhancedPacket(_) => BlockTypes.EnhancedPacket
    case SystemdJournalExport(_) => BlockTypes.SystemdJournalExport
    case Unknown(u) => u.blockType
  }

  /** The decoded value a known variant holds. */
  function Payload<V>(p: ParsedBlock<V>): Option<V>
  {
    match p
    case SectionHeader(v) => Some(v)
    case InterfaceDescription(v) => Some(v)
    case Packet(v) => Some(v)
    case SimplePacket(v) => Some(v)
    case NameResolution(v) => Some(v)
    case InterfaceStatistics(v) => Some(v)
    case EnhancedPacket(v) => Some(v)
    case SystemdJournalExport(v) => Some(v)
    case Unknown(_) => None
  }

  /** The byte order a body of type `t` is decoded in: section headers always big-endian. */
  function BodyOrder(t: BlockTypes.BlockType, order: Endianness): (r: Endianness)
    ensures t == BlockTypes.SectionHeader ==> r == Big
    ensures t != BlockTypes.SectionHeader ==> r == order
  {
    if t == BlockTypes.SectionHeader then Big else order
  }

  /**
   * The total length recorded for an unknown block: the body length plus 12,
   * computed in 32 bits (`slice.len() as u32 + 12`, wrapping).
   */
  function UnknownLength(bodyLen: nat): (r: u32)
    ensures bodyLen + 12 < 0x1_0000_0000 ==> r == bodyLen + 12
  {
    (bodyLen % 0x1_0000_0000 + 12) % 0x1_0000_0000
  }

  /**
   * Decodes a body of type `t` with the decoder for `t` (`ParsedBlock::from_slice`).
   * A known type succeeds exactly when its decoder does, with the decoder's
   * leftover bytes and value in the variant for `t`, and fails with the
   * decoder's error unchanged. An unknown type always succeeds, with an
   * `Unknown` record of the whole slice and nothing left over.
   */
  function DispatchSlice<V>(decode: Decoder<V>, order: Endianness, t: BlockTypes.BlockType, slice: seq<byte>)
    : (r: Result<(seq<byte>, ParsedBlock<V>)>)
    ensures r.Ok? ==> TypeOf(r.value.1) == t
    ensures !t.Unknown? ==>
              var d := decode(t, BodyOrder(t, order), slice);
              && (r.Ok? <==> d.Ok?)
              && (r.Ok? ==> r.value.0 == d.value.0 && Payload(r.value.1) == Some(d.value.1))
              && (r.Err? ==> r.error == d.error)
    ensures t.Unknown? ==>
              r == Ok(([], Unknown(UnknownBlock(t, UnknownLength(|slice|), slice))))
  {
    match t
    case SectionHeader =>
      var (rem, v) :- decode(t, Big, slice);
      Ok((rem, SectionHeader(v)))
    case InterfaceDescription =>
      var (rem, v) :- decode(t, order, slice);
      Ok((rem, InterfaceDescription(v)))
    case Packet =>
      var (rem, v) :- decode(t, order, slice);
      Ok((rem, Packet(v)))
    case SimplePacket =>
      var (rem, v) :- decode(t, order, slice);
      Ok((rem, SimplePacket(v)))
    case NameResolution =>
      var (rem, v) :- decode(t, order, slice);
      Ok((rem, NameResolution(v)))
    case InterfaceStatistics =>
      var (rem, v) :- decode(t, order, slice);
      Ok((rem, InterfaceStatistics(v)))
    case EnhancedPacket =>
      var (rem, v) :- decode(t, order, slice);
      Ok((rem, EnhancedPacket(v)))
    case SystemdJournalExport =>
      var (rem, v) :- decode(t, order, slice);
      Ok((rem, SystemdJournalExport(v)))
    case Unknown(_) =>
      Ok(([], Unknown(UnknownBlock(t, UnknownLength(|slice|), slice))))
  }

  /**
   * Interprets the body of a decoded block (`Block::parsed`), in the byte
   * order recorded on the block, dropping the decoder's leftover bytes.
   */
  function Parsed<V>(decode: Decoder<V>, b: Blocks.Block): (r: Result<ParsedBlock<V>>)
    ensures r.Ok? ==> TypeOf(r.value) == b.blockType
    ensures b.blockType.Unknown? ==>
              r == Ok(Unknown(UnknownBlock(b.blockType, UnknownLength(|b.body|), b.body)))
    ensures !b.blockType.Unknown? ==>
              var d := decode(b.blockType, BodyOrder(b.blockType, b.endianness), b.body);
              && (r.Ok? <==> d.Ok?)
              && (r.Ok? ==> Payload(r.value) == Some(d.value.1))
              && (r.Err? ==> r.error == d.error)
  {
    match b.endianness
    case Big =>
      var (_, p) :- DispatchSlice(decode, Big, b.blockType, b.body);
      Ok(p)
    case Little =>
      var (_, p) :- DispatchSlice(decode, Little, b.blockType, b.body);
      Ok(p)
  }

  /** `into_section_header`. */
  function IntoSectionHeader<V>(p: ParsedBlock<V>): (r: Option<V>)
    ensures r.Some? <==> p.SectionHeader?
    ensures r.Some? ==> r.value == p.sectionHeader
  {
    match p
    case SectionHeader(v) => Some(v)
    case _ => None
  }

  /** `into_interface_description`. */
  function IntoInterfaceDescription<V>(p: ParsedBlock<V>): (r: Option<V>)
    ensures r.Some? <==> p.InterfaceDescription?
    ensures r.Some? ==> r.value == p.interfaceDescription
  {
    match p
    case InterfaceDescription(v) => Some(v)
    case _ => None
  }

  /** `into_packet`. */
  function IntoPacket<V>(p: ParsedBlock<V>): (r: Option<V>)
    ensures r.Some? <==> p.Packet?
    ensures r.Some? ==> r.value == p.packet
  {
    match p
    case Packet(v) => Some(v)
    case _ => None
  }

  /** `into_simple_packet`. */
  function IntoSimplePacket<V>(p: ParsedBlock<V>): (r: Option<V>)
    ensures r.Some? <==> p.SimplePacket?
    ensures r.Some? ==> r.value == p.simplePacket
  {
    match p
    case SimplePacket(v) => Some(v)
    case _ => None
  }

  /** `into_name_resolution`. */
  function IntoNameResolution<V>(p: ParsedBlock<V>): (r: Option<V>)
    ensures r.Some? <==> p.NameResolution?
    ensures r.Some? ==> r.value == p.nameResolution
  {
    match p
    case NameResolution(v) => Some(v)
    case _ => None
  }

  /** `into_interface_statistics`. */
  function IntoInterfaceStatistics<V>(p: ParsedBlock<V>): (r: Option<V>)
    ensures r.Some? <==> p.InterfaceStatistics?
    ensures r.Some? ==> r.value == p.interfaceStatistics
  {
    match p
    case InterfaceStatistics(v) => Some(v)
    case _ => None
  }

  /** `into_enhanced_packet`. */
  function IntoEnhancedPacket<V>(p: ParsedBlock<V>): (r: Option<V>)
    ensures r.Some? <==> p.EnhancedPacket?
    ensures r.Some? ==> r.value == p.enhancedPacket
  {
    match p
    case EnhancedPacket(v) => Some(v)
    case _ => None
  }

  /** `into_systemd_journal_export`. */
  function IntoSystemdJournalExport<V>(p: ParsedBlock<V>): (r: Option<V>)
    ensures r.Some? <==> p.SystemdJournalExport?
    ensures r.Some? ==> r.value == p.systemdJournalExport
  {
    match p
    case SystemdJournalExport(v) => Some(v)
    case _ => None
  }
}
