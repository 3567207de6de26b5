/** The two exceptions the protocol engine throws (`ConnectionClosed`,
    `UnknownMsg`), and the wrappers the model uses in place of throwing. */
module Errors {

  /** `ConnectionClosed` is thrown on any failed or short socket read or
      write, and by the codec on an unknown tag; `UnknownMsg` only by the
      legacy text-only codec on a type byte other than 0. */
  datatype Error = ConnectionClosed | UnknownMsg

  datatype Option<+T> = None | Some(value: T) {
    /** `std::optional::value_or`. */
    function GetOr(default: T): (r: T)
      ensures Some? ==> r == value
      ensures None? ==> r == default
    {
      match this
      case Some(v) => v
      case None => default
    }
  }

  /** A value, or the exception that the source would have thrown. */
  datatype Result<+T> = Ok(value: T) | Err(error: Error)

  /** The outcome of an operation that returns nothing but may throw. */
  datatype Outcome = Pass | Fail(error: Error)
}
