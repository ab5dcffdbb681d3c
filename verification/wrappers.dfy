/** Optional values and error-carrying results, used for the nullable
    columns of the store and for operations that can fail. */
module Wrappers {

  /** A value that may be absent: a Go nil pointer, a JSON null, a TypeScript
      `undefined`. */
  datatype Option<+T> = None | Some(value: T) {

    /** The wrapped value, or `default` when absent (TypeScript's `??`). */
    function GetOr(default: T): T {
      match this
      case Some(v) => v
      case None => default
    }
  }

  /** Either a value or an error. */
  datatype Result<+R, +E> = Success(value: R) | Failure(error: E)
}
