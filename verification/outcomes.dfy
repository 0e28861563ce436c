/**
 * Absent-or-present values and success-or-failure values, the two shapes the
 * portfolio script handles dynamically: optional JSON fields (`null` or
 * `undefined` on the wire) and a fetch that either yields a payload or throws.
 */
module Outcomes {

  /** A value that may be missing, as an optional field of a JSON object. */
  datatype Option<+T> = None | Some(value: T)

  /** The result of an operation that may fail with an error of type `E`. */
  datatype Result<+T, +E> = Success(value: T) | Failure(error: E)
}
