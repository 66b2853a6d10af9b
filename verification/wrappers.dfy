/** Failure-carrying result types shared by the models. A `Failure` stands for
    the source's `panic(...)` or `exit(...)`: the call does not return. */
module Wrappers {

  datatype Option<+T> = None | Some(value: T)

  datatype Result<+R, +E> = Success(value: R) | Failure(error: E)
}
