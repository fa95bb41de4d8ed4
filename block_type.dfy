/**
 * The block-type tag: eight known record kinds and a catch-all that keeps
 * any other 32-bit code verbatim.
 */
module BlockTypes {
  import opened ByteOrder

  datatype BlockType =
    | SectionHeader
    | InterfaceDescription
    | Packet
    | SimplePacket
    | NameResolution
    | InterfaceStatistics
    | EnhancedPacket
    | SystemdJournalExport
    | Unknown(code: u32)

  const SectionHeaderCode: u32 := 0x0A0D0D0A

  /** The codes that have a named variant. */
  predicate IsKnownCode(c: u32)
  {
    c == SectionHeaderCode || 1 <= c <= 6 || c == 9
  }

  /** Tag of a wire code (`From<u32>`); total, never fails. */
  function FromCode(c: u32): (t: BlockType)
    ensures ToCode(t) == c
    ensures t.Unknown? <==> !IsKnownCode(c)
  {
    match c
    case 0x0A0D0D0A => SectionHeader
    case 0x00000001 => InterfaceDescription
    case 0x00000002 => Packet
    case 0x00000003 => SimplePacket
    case 0x00000004 => NameResolution
    case 0x00000005 => InterfaceStatistics
    case 0x00000006 => EnhancedPacket
    case 0x00000009 => SystemdJournalExport
    case _ => Unknown(c)
  }

  /** Wire code of a tag (`Into<u32>`). */
  function ToCode(t: BlockType): (c: u32)
    ensures t.Unknown? || IsKnownCode(c)
  {
    match t
    case SectionHeader => SectionHeaderCode
    case InterfaceDescription => 0x00000001
    case Packet => 0x00000002
    case SimplePacket => 0x00000003
    case NameResolution => 0x00000004
    case InterfaceStatistics => 0x00000005
    case EnhancedPacket => 0x00000006
    case SystemdJournalExport => 0x00000009
    case Unknown(c) => c
  }

  /** A tag `FromCode` can produce: every known variant, and `Unknown` of a code without a name. */
  predicate IsCanonical(t: BlockType)
  {
    t.Unknown? ==> !IsKnownCode(t.code)
  }

  /** Every code survives the trip through the tag. */
  lemma CodeRoundTrip(c: u32)
    ensures ToCode(FromCode(c)) == c
    ensures IsCanonical(FromCode(c))
  {
  }

  /** A tag survives the trip through its code exactly when it is canonical. */
  lemma TagRoundTrip(t: BlockType)
    ensures FromCode(ToCode(t)) == t <==> IsCanonical(t)
  {
  }

  /** Distinct canonical tags have distinct codes. */
  lemma ToCodeInjective(t: BlockType, u: BlockType)
    requires IsCanonical(t) && IsCanonical(u)
    requires ToCode(t) == ToCode(u)
    ensures t == u
  {
    TagRoundTrip(t);
    TagRoundTrip(u);
  }

  /**
   * The section-header code reads the same in either byte order, so its tag
   * is recognised before the section's byte order is known.
   */
  lemma SectionHeaderCodeIsPalindrome(written: Endianness, read: Endianness)
    ensures FromCode(DecodeU32(read, EncodeU32(written, SectionHeaderCode))) == SectionHeader
  {
    var bytes: seq<byte> := [0x0A, 0x0D, 0x0D, 0x0A];
    assert BigEndianBytes(SectionHeaderCode) == bytes;
    assert EncodeU32(written, SectionHeaderCode) == bytes;
    assert DecodeU32(read, bytes) == SectionHeaderCode;
  }
}
