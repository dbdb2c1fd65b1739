/** Option and Result, the failure-carrying datatypes the rest of the model returns
    in place of Python's None and raised exceptions. */
module Wrappers {

  /** Python's Optional[T]: None, or a present value. */
  datatype Option<+T> = None | Some(value: T) {

    /** The present value, or `default` when None. */
    function GetOr(default: T): T {
      match this
      case Some(v) => v
      case None => default
    }
  }

  /** The outcome of a service call: a value, or the error it was raised with. */
  datatype Result<+T, +E> = Ok(value: T) | Err(error: E)
}
