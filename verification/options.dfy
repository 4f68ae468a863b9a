/** Failure-carrying wrappers used throughout the model in place of Ruby's nil. */
module Options {

  /** A value that may be absent; `None` plays the part of Ruby's nil. */
  datatype Option<+T> = None | Some(value: T) {

    /** The wrapped value, or `default` when absent. */
    function GetOr(default: T): T {
      match this
      case Some(v) => v
      case None => default
    }
  }

  /** The outcome of an operation that can fail with an error of type E. */
  datatype Result<+T, +E> = Ok(value: T) | Err(error: E)
}
