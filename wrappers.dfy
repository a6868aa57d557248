/** Option and Result, used for the values the document manager may
    return as null and for the exceptions the extension methods throw. */
module Wrappers {

  /** `None` stands for a .NET `null`. */
  datatype Option<+T> = None | Some(value: T) {

    /** The value, or `default` for `None`. */
    function GetOr(default: T): T {
      match this
      case Some(v) => v
      case None => default
    }
  }

  /** `Failure` stands for a thrown exception; the caller gets no value. */
  datatype Result<+R, +E> = Success(value: R) | Failure(error: E)
}
