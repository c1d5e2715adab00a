/** Option and Result values for lookups that may find nothing and operations that may fail. */
module Wrappers {

  /** None stands for JavaScript's `undefined`/`null` (an absent field) or the `false` of a failed lookup. */
  datatype Option<+T> = None | Some(value: T)

  datatype Result<+R, +E> = Success(value: R) | Failure(error: E)
}
