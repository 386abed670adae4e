/** Value wrappers shared by the other modules.
    `Option` stands for a JavaScript value that may be `null`/`undefined`;
    `Result` for an operation that either returns or throws a named error. */
module Wrappers {

  datatype Option<+T> = None | Some(value: T)

  datatype Result<+R, +E> = Success(value: R) | Failure(error: E)
}
