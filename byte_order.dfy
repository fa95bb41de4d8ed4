/**
 * Byte order and fixed-width integers on the wire.
 *
 * Every multi-byte field of a PcapNG block is a 32-bit unsigned integer
 * stored either big-endian or little-endian. This module gives the two
 * encodings of a `u32` as four bytes and the byte swap that converts a
 * value read in one order into the value the other order would have read.
 */
module ByteOrder {

  type byte = x: int | 0 <= x < 0x100
  type u32 = x: int | 0 <= x < 0x1_0000_0000

  /** The order in which multi-byte integers are laid out. */
  datatype Endianness = Big | Little

  /** The four bytes of `x`, most significant first. */
  function BigEndianBytes(x: u32): seq<byte>
  {
    var hi := x / 0x100;
    var hi2 := hi / 0x100;
    [hi2 / 0x100, hi2 % 0x100, hi % 0x100, x % 0x100]
  }

  /** Writes `x` as four bytes in order `e`. */
  function EncodeU32(e: Endianness, x: u32): (r: seq<byte>)
    ensures |r| == 4
  {
    var b := BigEndianBytes(x);
    match e
    case Big => b
    case Little => [b[3], b[2], b[1], b[0]]
  }

  /**
   * Reads four bytes as an unsigned integer in order `e`; every four bytes
   * are the encoding of the value they read as.
   */
  function DecodeU32(e: Endianness, s: seq<byte>): (r: u32)
    requires |s| == 4
    ensures EncodeU32(e, r) == s
  {
    var b := if e == Big then s else [s[3], s[2], s[1], s[0]];
    var hi2 := b[0] as int * 0x100 + b[1];
    var hi: int := hi2 * 0x100 + b[2];
    var x: int := hi * 0x100 + b[3];
    assert x / 0x100 == hi && x % 0x100 == b[3];
    assert hi / 0x100 == hi2 && hi % 0x100 == b[2];
    assert hi2 / 0x100 == b[0] && hi2 % 0x100 == b[1];
    x
  }

  /**
   * Reverses the order of the four bytes of `x` (`u32::swap_bytes`): the
   * big-endian bytes of the result are the little-endian bytes of `x`.
   */
  function SwapBytes(x: u32): (r: u32)
    ensures EncodeU32(Big, r) == EncodeU32(Little, x)
  {
    var hi := x / 0x100;
    var hi2 := hi / 0x100;
    var r := ((x % 0x100 * 0x100 + hi % 0x100) * 0x100 + hi2 % 0x100) * 0x100 + hi2 / 0x100;
    assert r == DecodeU32(Big, EncodeU32(Little, x));
    r
  }

  /** Decoding what was encoded gives the value back, in either order. */
  lemma DecodeEncode(e: Endianness, x: u32)
    ensures DecodeU32(e, EncodeU32(e, x)) == x
  {
    var hi := x / 0x100;
    var hi2 := hi / 0x100;
    assert x == hi * 0x100 + x % 0x100;
    assert hi == hi2 * 0x100 + hi % 0x100;
    assert hi2 == (hi2 / 0x100) * 0x100 + hi2 % 0x100;
  }

  /** Byte-swapping the value read big-endian gives the value read little-endian. */
  lemma SwapReadsOtherOrder(s: seq<byte>)
    requires |s| == 4
    ensures SwapBytes(DecodeU32(Big, s)) == DecodeU32(Little, s)
    ensures SwapBytes(DecodeU32(Little, s)) == DecodeU32(Big, s)
  {
    assert EncodeU32(Big, DecodeU32(Big, s)) == s;
    assert EncodeU32(Little, DecodeU32(Little, s)) == s;
  }

  /** Swapping twice is the identity. */
  lemma SwapBytesInvolutive(x: u32)
    ensures SwapBytes(SwapBytes(x)) == x
  {
    var s := EncodeU32(Big, x);
    DecodeEncode(Big, x);
    SwapReadsOtherOrder(s);
    var t := [s[3], s[2], s[1], s[0]];
    assert DecodeU32(Little, s) == DecodeU32(Big, t);
    SwapReadsOtherOrder(t);
  }
}
