/** Error kinds of the codec and the result type that carries them. */
module Errors {

  /** The codec's error kinds, one per constant of the Java enum. */
  datatype ErrorCode =
    | InternalError
    | MalformedMessage
    | IncompatibleRequest
    | BadMagic
    | ArgOutOfRange
    | BlockNotFound
    | BadCharEncoding
  {
    /** The numeric code carried on the wire and in diagnostics. */
    function Code(): (c: int)
      ensures 100 <= c <= 105
      ensures c == 102 <==> this == IncompatibleRequest || this == BadMagic
    {
      match this
      case InternalError => 100
      case MalformedMessage => 101
      case IncompatibleRequest => 102
      case BadMagic => 102
      case ArgOutOfRange => 103
      case BlockNotFound => 104
      case BadCharEncoding => 105
    }
  }

  /** Either a value or an error; usable with `:-`. */
  datatype Result<+T, +E> = Ok(value: T) | Err(error: E) {
    predicate IsFailure() {
      Err?
    }

    function PropagateFailure<U>(): Result<U, E>
      requires Err?
    {
      Err(error)
    }

    function Extract(): T
      requires Ok?
    {
      value
    }
  }

  datatype Option<+T> = None | Some(value: T)
}
