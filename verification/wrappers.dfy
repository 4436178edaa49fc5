/** How the model writes two Python conventions.
    - Option<T>: a value that may be `None` (an unset variable, a missing
      key, a failed parse).
    - Outcome<T>: whether a call returned a value or raised an exception
      that its own code does not catch. */
module Wrappers {

  datatype Option<+T> = None | Some(value: T) {

    /** The value, or `default` in its place when it is `None`: the
        model's `x if x is not None else default`. */
    function GetOr(default: T): (r: T)
      ensures Some? ==> r == value
      ensures None? ==> r == default
    {
      match this
      case Some(v) => v
      case None => default
    }
  }

  datatype Outcome<+T> = Returned(value: T) | Raised
}
