/** Absent-or-present values and success-or-error results, used for the
    store's "row or undefined" lookups and for statements that can throw. */
module Wrappers {

  /** A lookup that may find nothing (`undefined` in the store's API). */
  datatype Option<+T> = None | Some(value: T)

  /** A statement that either completes with a value or raises an error. */
  datatype Result<+T, +E> = Ok(value: T) | Err(error: E)
}
