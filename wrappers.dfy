/** Nullable values and fallible results. */
module Wrappers {

  /** A nullable column or a lookup that may find nothing. */
  datatype Option<+T> = None | Some(value: T) {
    function GetOr(default: T): T {
      if Some? then value else default
    }
  }

  /** The value a command computes, or the reason it stops with exit code 1. */
  datatype Result<+T, +E> = Ok(value: T) | Err(error: E)
}
