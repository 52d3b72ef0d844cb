/** Failure-carrying result types shared by the whole model. A `panic!` or an
    `expect`/`unwrap` that fails in the program becomes a `Failure` or `None`
    here, so that every fatal path can be stated and reasoned about. */
module Wrappers {

  datatype Option<+T> = None | Some(value: T)

  datatype Result<+R, +E> = Success(value: R) | Failure(error: E)
}
