/** Option and Result, the two failure-carrying wrappers the model uses for
    Python's `None` returns and raised exceptions. */
module Wrappers {

  datatype Option<+T> = None | Some(value: T) {
    /** The value, or `default` when there is none (Python's `dict.get(k, default)`). */
    function GetOr(default: T): T {
      match this
      case Some(v) => v
      case None => default
    }
  }

  /** `Err` stands for an exception raised by the modelled code; its payload is the message. */
  datatype Result<+T, +E> = Ok(value: T) | Err(error: E)
}
