/** Failure-carrying value types shared by the rest of the model: Python's
    `None`, raised exceptions and pass/fail checks become ordinary values. */
module Wrappers {

  /** An optional value; stands for a Python attribute that may be `None`. */
  datatype Option<+T> = None | Some(value: T)

  /** Either a computed value or the error the source would raise. */
  datatype Result<+R, +E> = Success(value: R) | Failure(error: E)

  /** The outcome of a check that either passes or raises one error. */
  datatype Outcome<+E> = Pass | Fail(error: E)
}
