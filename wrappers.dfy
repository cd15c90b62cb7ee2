/** Option and Result types used for the absence values and the exceptions of the pipeline. */
module Wrappers {

  /** Python's `None` versus a present value. */
  datatype Option<+T> = None | Some(value: T) {

    /** The carried value, or `default` when there is none. */
    function GetOr(default: T): T {
      match this
      case Some(v) => v
      case None => default
    }
  }

  /** A computed value, or the exception that aborted the computation. */
  datatype Result<+R, +E> = Success(value: R) | Failure(error: E)
}
