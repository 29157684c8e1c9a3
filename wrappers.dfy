/** Option, Result and Outcome: the shapes of Java's Optional, of a value-or-exception
    return and of a void method that may throw. */
module Wrappers {

  datatype Option<+T> = None | Some(value: T)

  datatype Result<+T, +E> = Success(value: T) | Failure(error: E)

  datatype Outcome<+E> = Pass | Fail(error: E)
}
