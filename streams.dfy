/**
 * The sequential reader and writer the framer works against.
 *
 * A reader is the bytes of the stream and a cursor into them; every read
 * either delivers exactly the bytes asked for or fails with an end-of-stream
 * error, after which the cursor stands at the end of the stream. A writer is
 * the sequence of bytes written so far; writing appends.
 */
module Streams {
  import opened ByteOrder
  import opened Errors

  class Reader {
    const data: seq<byte>
    var pos: nat

    ghost predicate Valid()
      reads this
    {
      pos <= |data|
    }

    /** The bytes not yet consumed. */
    ghost function Remaining(): seq<byte>
      reads this
      requires Valid()
    {
      data[pos..]
    }

    constructor (data: seq<byte>)
      ensures Valid() && this.data == data && pos == 0
    {
      this.data := data;
      pos := 0;
    }

    /** Reads a `u32` in order `e` (`read_u32`). */
    method ReadU32(e: Endianness) returns (r: Result<u32>)
      requires Valid()
      modifies this
      ensures Valid()
      ensures old(pos) + 4 <= |data| ==>
                r == Ok(DecodeU32(e, data[old(pos)..old(pos) + 4])) && pos == old(pos) + 4
      ensures |data| < old(pos) + 4 ==> r == Err(IoError(UnexpectedEof)) && pos == |data|
    {
      if |data| < pos + 4 {
        pos := |data|;
        return Err(IoError(UnexpectedEof));
      }
      r := Ok(DecodeU32(e, data[pos..pos + 4]));
      pos := pos + 4;
    }

    /** Fills `buf[from..]` from the stream (`read_exact`); on a short stream `buf` is left as it was. */
    method ReadExact(buf: array<byte>, from: nat) returns (r: Result<()>)
      requires Valid() && from <= buf.Length
      modifies this, buf
      ensures Valid()
      ensures var n := buf.Length - from;
              if old(pos) + n <= |data| then
                r == Ok(()) && pos == old(pos) + n &&
                buf[..] == old(buf[..from]) + data[old(pos)..old(pos) + n]
              else
                r == Err(IoError(UnexpectedEof)) && pos == |data| && buf[..] == old(buf[..])
    {
      var n := buf.Length - from;
      if |data| < pos + n {
        pos := |data|;
        return Err(IoError(UnexpectedEof));
      }
      forall i | from <= i < buf.Length {
        buf[i] := data[pos + i - from];
      }
      pos := pos + n;
      r := Ok(());
    }
  }

  /**
   * Writes a `u32` in order `e` at the start of a fixed buffer (`write_u32`
   * on `&mut [u8]`). A buffer shorter than four bytes takes what fits and the
   * write fails.
   */
  method WriteU32ToBuffer(buf: array<byte>, e: Endianness, x: u32) returns (r: Result<()>)
    modifies buf
    ensures 4 <= buf.Length ==>
              r == Ok(()) && buf[..] == EncodeU32(e, x) + old(buf[4..])
    ensures buf.Length < 4 ==>
              r == Err(IoError(WriteZero)) && buf[..] == EncodeU32(e, x)[..buf.Length]
  {
    var b := EncodeU32(e, x);
    if buf.Length < 4 {
      forall i | 0 <= i < buf.Length {
        buf[i] := b[i];
      }
      return Err(IoError(WriteZero));
    }
    buf[0], buf[1], buf[2], buf[3] := b[0], b[1], b[2], b[3];
    r := Ok(());
  }

  class Writer {
    var out: seq<byte>

    constructor ()
      ensures out == []
    {
      out := [];
    }

    /** Appends a `u32` in order `e` (`write_u32`). */
    method WriteU32(e: Endianness, x: u32)
      modifies this
      ensures out == old(out) + EncodeU32(e, x)
    {
      out := out + EncodeU32(e, x);
    }

    /** Appends `bytes` verbatim and reports how many were written (`write`). */
    method Write(bytes: seq<byte>) returns (n: nat)
      modifies this
      ensures out == old(out) + bytes && n == |bytes|
    {
      out := out + bytes;
      n := |bytes|;
    }
  }
}
