/** Status codes (src/error.hh). The codes for files and for console output are not needed.

    `IndexFault` is not a code of the program: it marks the points where the C++ code would
    index outside an array, after which the language promises nothing. A method of this model
    stops there and reports it, so that every theorem can say whether it depends on it. */
module Errors {

  datatype Status =
    | Ok
    | BufferOverflow
    | OutOfRange
    | MisalignedData
    | UnexpectedEof
    | NotLzxFile
    | ChecksumInvalid
    | HuffmanTableError
    | UnknownCompression
    | IndexFault

  datatype Option<+T> = None | Some(value: T)

  /** Either a value or the status that `TRY` hands to the caller. */
  datatype Result<+T> = Success(value: T) | Failure(status: Status)
  {
    predicate IsFailure() {
      Failure?
    }

    function PropagateFailure<U>(): Result<U>
      requires Failure?
    {
      Failure(status)
    }

    function Extract(): T
      requires Success?
    {
      value
    }
  }
}
