/** The two failure-compatible wrappers the model uses: Option for pandas'
    missing values (None / NaN) and Result for an operation that can raise. */
module Wrappers {

  datatype Option<+T> = None | Some(value: T)

  datatype Result<+R, +E> = Success(value: R) | Failure(error: E)
}
