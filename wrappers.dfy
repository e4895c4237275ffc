/** Optional values and results, used for nullable pointers, QVariant conversions and libheif calls that throw. */
module Wrappers {

  /** `None` stands for a null pointer, an empty QVariant or a call that threw heif::Error. */
  datatype Option<+T> = None | Some(value: T) {
    function GetOr(default: T): T {
      match this
      case Some(v) => v
      case None => default
    }
  }

  datatype Result<+T, +E> = Success(value: T) | Failure(error: E)
}
