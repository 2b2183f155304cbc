/** Wrappers used across the model. */
module Wrappers {

  /** A value that may be missing: `None` stands for an empty CSV cell (NaN once parsed). */
  datatype Option<+T> = None | Some(value: T) {
    /** pandas `fillna(default)` on one cell. */
    function GetOr(default: T): T {
      match this
      case Some(v) => v
      case None => default
    }
  }

  /** The outcome of an operation that can raise. */
  datatype Result<+T, +E> = Ok(value: T) | Err(error: E)
}
