/** Outcomes of operations that can fail: the Java code throws an exception where these hold Failure or Some. */
module Wrappers {

  datatype Result<+T, +E> = Success(value: T) | Failure(error: E)

  datatype Option<+T> = None | Some(value: T)

}
