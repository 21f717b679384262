/** The optional request fields and the success-or-raised outcomes of the model. */
module Wrappers {

  /** A field that the caller may leave out: `None`, or the value supplied. */
  datatype Option<+T> = None | Some(value: T)
  {
    /** The supplied value, or `fallback` when the field was left out, as a field default fills it. */
    function OrDefault(fallback: T): (filled: T)
      ensures Some? ==> filled == value
      ensures None? ==> filled == fallback
    {
      if Some? then value else fallback
    }
  }

  /** The value an operation built, or the error it raised instead. */
  datatype Result<+R, +E> = Success(value: R) | Failure(error: E)
}
