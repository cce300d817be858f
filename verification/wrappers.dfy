/** Failure-compatible wrappers: `Option` stands for PHP's `false`/`null` returns and
    `Result` for a call that may throw. */
module Wrappers {

  datatype Option<+T> = None | Some(value: T)

  datatype Result<+R, +E> = Success(value: R) | Failure(error: E)
}
