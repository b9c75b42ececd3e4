/** Small datatypes used throughout the model: an optional peer (a present
    rank or the null peer), the result of a setup step that may fail, and
    the pass/fail outcome of the validator. */
module Wrappers {

  /** A neighbour slot holds `Some(rank)` or `None`, the null peer. */
  datatype Option<+T> = None | Some(value: T)

  /** The outcome of a setup step that may fail with a configuration error. */
  datatype Result<+R, +E> = Success(value: R) | Failure(error: E)

  /** The outcome of a check that carries no value when it passes. */
  datatype Outcome<+E> = Pass | Fail(error: E)
}
