/**
 * What the dispatcher promises beyond its own contract: section header
 * bodies do not depend on the caller's byte order, a block of unknown type
 * read by the framer keeps its wire length, and exactly one narrowing
 * accessor answers for each known variant.
 */
module DispatchProperties {
  import opened ByteOrder
  import opened Errors
  import BlockTypes
  import Blocks
  import FramingProperties
  import opened ParsedBlocks

  /** A section header body decodes the same whatever order the caller asserts. */
  lemma SectionHeaderDispatchIgnoresOrder<V>(decode: Decoder<V>, slice: seq<byte>)
    ensures DispatchSlice(decode, Big, BlockTypes.SectionHeader, slice)
            == DispatchSlice(decode, Little, BlockTypes.SectionHeader, slice)
  {
  }

  /** Interpreting a section header does not depend on the order recorded on it. */
  lemma ParsedSectionHeaderIgnoresEndianness<V>(decode: Decoder<V>, b: Blocks.Block, e: Endianness)
    requires b.blockType == BlockTypes.SectionHeader
    ensures Parsed(decode, b) == Parsed(decode, b.(endianness := e))
  {
  }

  /** Every other known type is decoded in the order recorded on the block. */
  lemma ParsedUsesRecordedOrder<V>(decode: Decoder<V>, b: Blocks.Block)
    requires !b.blockType.Unknown? && b.blockType != BlockTypes.SectionHeader
    ensures Parsed(decode, b).Ok? <==> decode(b.blockType, b.endianness, b.body).Ok?
  {
  }

  /**
   * A block of unknown type that the framer decoded interprets as an
   * `Unknown` record of its body whose length is the block's own total length.
   */
  lemma UnknownKeepsWireLength<V>(decode: Decoder<V>, order: Endianness, input: seq<byte>)
    requires Blocks.SliceDecode(order, input).Ok?
    requires Blocks.SliceDecode(order, input).value.1.blockType.Unknown?
    ensures var b := Blocks.SliceDecode(order, input).value.1;
            Parsed(decode, b) == Ok(Unknown(UnknownBlock(b.blockType, b.initialLen, b.body)))
  {
    FramingProperties.SliceDecodeOk(order, input);
  }

  /** How many of the eight narrowing accessors return a value. */
  function NarrowCount<V>(p: ParsedBlock<V>): nat
  {
    (if IntoSectionHeader(p).Some? then 1 else 0)
      + (if IntoInterfaceDescription(p).Some? then 1 else 0)
      + (if IntoPacket(p).Some? then 1 else 0)
      + (if IntoSimplePacket(p).Some? then 1 else 0)
      + (if IntoNameResolution(p).Some? then 1 else 0)
      + (if IntoInterfaceStatistics(p).Some? then 1 else 0)
      + (if IntoEnhancedPacket(p).Some? then 1 else 0)
      + (if IntoSystemdJournalExport(p).Some? then 1 else 0)
  }

  /**
   * Exactly one accessor answers for a known variant, and it is the one
   * for the variant's block type; none answers for an unknown block.
   */
  lemma NarrowingIsExclusive<V>(p: ParsedBlock<V>)
    ensures NarrowCount(p) == if p.Unknown? then 0 else 1
    ensures IntoSectionHeader(p).Some? <==> TypeOf(p) == BlockTypes.SectionHeader && !p.Unknown?
    ensures IntoInterfaceDescription(p).Some? <==> TypeOf(p) == BlockTypes.InterfaceDescription && !p.Unknown?
    ensures IntoPacket(p).Some? <==> TypeOf(p) == BlockTypes.Packet && !p.Unknown?
    ensures IntoSimplePacket(p).Some? <==> TypeOf(p) == BlockTypes.SimplePacket && !p.Unknown?
    ensures IntoNameResolution(p).Some? <==> TypeOf(p) == BlockTypes.NameResolution && !p.Unknown?
    ensures IntoInterfaceStatistics(p).Some? <==> TypeOf(p) == BlockTypes.InterfaceStatistics && !p.Unknown?
    ensures IntoEnhancedPacket(p).Some? <==> TypeOf(p) == BlockTypes.EnhancedPacket && !p.Unknown?
    ensures IntoSystemdJournalExport(p).Some? <==> TypeOf(p) == BlockTypes.SystemdJournalExport && !p.Unknown?
  {
  }
}
