/** The outcome of a codec call: a value, or the error that stopped it. */
module Wrappers {

  datatype Result<+R, +E> = Success(value: R) | Failure(error: E)
}
