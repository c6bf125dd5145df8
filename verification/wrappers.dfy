/** Option and Result, used for nullable values and for Kotlin's `Result<T>`. */
module Wrappers {

  /** A nullable value: `None` stands for Kotlin's `null`. */
  datatype Option<+T> = None | Some(value: T) {
    /** The value, or `default` when absent (Kotlin's `?:`). */
    function GetOr(default: T): T {
      match this
      case Some(v) => v
      case None => default
    }
  }

  /** `Result.success(value)` or `Result.failure(Exception(error))`. */
  datatype Result<+T, +E> = Success(value: T) | Failure(error: E)
}
