/** Optional values and results with an error, standing in for the dictionary
    lookups with defaults and the exceptions of the converter. */
module Wrappers {

  /** A value that may be absent, like a key that may be missing from a note. */
  datatype Option<+T> = None | Some(value: T) {

    /** The value, or `default` when it is absent (Python's `dict.get(key, default)`). */
    function GetOr(default: T): T {
      match this
      case Some(v) => v
      case None => default
    }
  }

  /** The outcome of a step that can fail with a reason. */
  datatype Result<+T, +E> = Ok(value: T) | Err(error: E)
}
