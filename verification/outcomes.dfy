/** The two shapes a value of the model can take when it may be missing or
    may have failed. */
module Outcomes {

  /** A value that may be absent: an unset passage, an undecodable cache, a
      numeral that does not parse. */
  datatype Option<+T> = None | Some(value: T) {

    /** The value, or `fallback` when it is absent (`unwrap_or`). */
    function GetOr(fallback: T): T
    {
      if Some? then value else fallback
    }
  }

  /** The answer of an operation that can fail with an error value. */
  datatype Result<+R, +E> = Success(value: R) | Failure(error: E)
}
