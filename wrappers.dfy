/** Failure-compatible result types used for PHP's `null`/`false` returns and thrown exceptions. */
module Wrappers {

  /** `None` stands for PHP's `false` (from `strpos`) or `null` (a missing argument). */
  datatype Option<+T> = None | Some(value: T)

  /** A value, or the exception the PHP code throws instead of returning it. */
  datatype Result<+R, +E> = Success(value: R) | Failure(error: E)

  /** The outcome of a `void` PHP method that may throw. */
  datatype Outcome<+E> = Pass | Fail(error: E)
}
