/** Failure-carrying datatypes used for the model's error paths. */
module Wrappers {

  /** An optional value; stands for Python's `Optional[...]` / `None`. */
  datatype Option<+T> = None | Some(value: T)

  /** Either a value or the error that the source would raise instead. */
  datatype Result<+R, +E> = Success(value: R) | Failure(error: E)
}
