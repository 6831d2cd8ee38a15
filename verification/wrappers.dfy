/** Wrappers used in place of Go's `(value, error)` pairs and nil. */
module Wrappers {

  /** An optional value: `None` plays the role of a nil pointer or an absent map entry. */
  datatype Option<+T> = None | Some(value: T)

  /** Either a value or an error, the shape of a Go function returning `(T, error)`. */
  datatype Result<+T, +E> = Success(value: T) | Failure(error: E)
}
