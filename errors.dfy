/**
 * The errors a block decode can report, and the result and option types
 * the decoders return them in.
 */
module Errors {

  /** The two kinds of I/O failure the framer can meet. */
  datatype IoErrorKind =
    | UnexpectedEof   // a read found the stream shorter than requested
    | WriteZero       // a write into a fixed buffer found no room left

  datatype PcapError =
    | IncompleteBuffer(needed: nat)   // slice decode: exactly this many more bytes are needed
    | InvalidField(reason: string)    // a structural rule of the block is broken
    | IoError(kind: IoErrorKind)      // propagated from the reader or writer

  /** A value or the error that prevented computing it; usable with `:-`. */
  datatype Result<T> = Ok(value: T) | Err(error: PcapError) {

    predicate IsFailure() {
      Err?
    }

    function PropagateFailure<U>(): Result<U>
      requires Err?
    {
      Err(error)
    }

    function Extract(): T
      requires Ok?
    {
      value
    }
  }

  datatype Option<T> = None | Some(value: T)
}
