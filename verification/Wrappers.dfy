/** Optional values and fallible results shared by every component.  `Result` stands for the
    C++ exceptions of `aethon::Error`: the error carries its code, never its message. */
module Wrappers {

  datatype Option<+T> = None | Some(value: T)

  /** The codes of include/aethon/common/error.hpp that the modelled components raise. */
  datatype ErrorCode =
    | Eof
    | InvalidArgument
    | MalformedPacket
    | ChecksumMismatch
    | UnsupportedVersion

  datatype Result<+T> = Ok(value: T) | Err(error: ErrorCode) {
    predicate IsFailure() {
      Err?
    }

    function PropagateFailure<U>(): Result<U>
      requires Err?
    {
      Err(error)
    }

    function Extract(): T
      requires Ok?
    {
      value
    }
  }
}
