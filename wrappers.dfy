/** The outcome of an operation that the scripts let raise a Python exception. */
module Wrappers {

  /** `Success` carries the value the Python code returns; `Failure` the exception it raises. */
  datatype Result<+T, +E> = Success(value: T) | Failure(error: E)
}
