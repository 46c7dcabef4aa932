/** Failure-compatible helper types shared by the whole model. */
module Wrappers {

  /** An optional value; the model's stand-in for `std::optional` and for nullable pointers. */
  datatype Option<+T> = None | Some(value: T)

  /** The outcome of an operation that can fail with a message (a thrown `std::runtime_error`). */
  datatype Result<+T> = Success(value: T) | Failure(error: string)
}
