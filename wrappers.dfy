/** Failure-carrying result types shared by the other modules: the Python code
    signals "nothing here" with None and failures with exceptions; the model
    returns these values instead. */
module Wrappers {

  datatype Option<+T> = None | Some(value: T)

  datatype Result<+T, +E> = Success(value: T) | Failure(error: E)

  datatype Outcome<+E> = Pass | Fail(error: E)
}
