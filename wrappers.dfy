/** Nullable values and success/failure results, as the Kotlin code uses `T?` and `Result<T>`. */
module Wrappers {

  /** A Kotlin nullable value: `None` stands for `null`. */
  datatype Option<+T> = None | Some(value: T) {
    function GetOr(default: T): T {
      match this
      case Some(v) => v
      case None => default
    }
  }

  /** `kotlin.Result`: a value, or the failure that was caught. */
  datatype Result<+R, +E> = Success(value: R) | Failure(error: E)
}
