/** Option and Result, the two failure-carrying shapes the model uses in place of
    Python's None values and (value, error) pairs. */
module Wrappers {

  datatype Option<+T> = None | Some(value: T) {
    function GetOr(default: T): T {
      match this
      case Some(v) => v
      case None => default
    }
  }

  /** The (result, error) pair every public operation returns: exactly one of the two is set. */
  datatype Result<+R, +E> = Success(value: R) | Failure(error: E)
}
