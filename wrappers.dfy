/** The two failure-carrying wrappers the model uses: Option for a value that may be
    missing (JavaScript's undefined, null or NaN), Result for a computation that either
    succeeds or reports what went wrong. */
module Wrappers {

  datatype Option<T> = None | Some(value: T)

  datatype Result<T, E> = Success(value: T) | Failure(error: E)
}
