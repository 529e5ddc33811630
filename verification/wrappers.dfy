/** Failure-carrying values shared by every module: `Option` for a JavaScript
    `null`/`undefined` or a Java `null`, `Result` for a Java exception. */
module Wrappers {

  datatype Option<+T> = None | Some(value: T)

  /** `Failure(message)` stands for a thrown exception whose `getMessage()` is `message`. */
  datatype Result<+T, +E> = Success(value: T) | Failure(error: E)
}
