/** Optional and fallible values: `Option` stands for the `null`/`undefined` the
    TypeScript code returns, `Result` for an exception that a call can throw. */
module Wrappers {

  datatype Option<+T> = None | Some(value: T)

  datatype Result<+R, +E> = Success(value: R) | Failure(error: E)
}
