/** Python exceptions as data, and the small wrappers the rest of the model uses
    for calls that may raise. */
module Failures {

  /** The two exception classes the handler tells apart: `ValueError` (and its
      subclasses) and every other `Exception`. Both carry `str(e)`. */
  datatype Exception = ValueError(message: string) | OtherError(message: string)

  /** What an awaited call does: returns normally, or raises. */
  datatype Outcome = Pass | Raise(error: Exception)

  /** A value, or the exception raised instead of producing it. */
  datatype Result<+T> = Ok(value: T) | Err(error: Exception)

  /** Python's `None`-or-value. */
  datatype Option<+T> = None | Some(value: T)
}
