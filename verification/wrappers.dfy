/** Wrappers shared by the whole model: `Option` stands for
    a nullable pointer or an absent value, `Result` for a call that either
    returns a value or throws. */
module Wrappers {

  datatype Option<+T> = None | Some(value: T)

  datatype Result<+R, +E> = Success(value: R) | Failure(error: E)
}
