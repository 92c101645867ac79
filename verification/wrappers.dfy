/** Failure-compatible result types and the exceptions the archive code can raise. */
module Wrappers {

  datatype Option<+T> = None | Some(value: T)

  /** A value or the exception that stopped the computation. */
  datatype Result<+T> = Ok(value: T) | Err(error: Error) {
    predicate IsFailure() { Err? }

    function PropagateFailure<U>(): Result<U>
      requires Err?
    {
      Err(error)
    }

    function Extract(): T
      requires Ok?
    {
      value
    }
  }

  /**
   * Why the modelled code stops: one constructor per .NET exception it
   * throws, and SizeMismatch for the failed debug assertion.
   */
  datatype Error =
    | EndOfStream              // Stream.ReadExactly ran out of bytes
    | ArgumentOutOfRange       // negative count, a span/slice past its buffer, or a stream position past int.MaxValue
    | Overflow                 // array allocated with a negative length, or a checked int sum past int.MaxValue
    | IndexOutOfRange          // flag table shorter than the file count
    | CompressionNotSupported  // an entry with flag bit 0 set
    | SizeMismatch             // block length prefix differs from the size table: a failed Debug.Assert, which ends a debug build's process rather than throwing
    | DuplicateKey             // OrderedDictionary.Add with a name already present
    | KeyNotFound              // lookup of a name that is not present
    | DivideByZero             // keystream cipher with an empty key
    | StreamTooLong            // MemoryStream.Write past int.MaxValue bytes (IOException)
}
