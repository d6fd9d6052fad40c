/** Failure-carrying result type: the value of a call that either returns
    normally or raises an exception. */
module Wrappers {

  datatype Result<+T, +E> = Ok(value: T) | Err(error: E)

}
