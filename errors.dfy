/** The exceptions the library raises, and the outcome of an operation that
    may raise one. */
module Errors {

  /** `std::invalid_argument`, pybind11's `index_error`, `std::runtime_error`,
      and the error pybind11 raises when a Python object cannot be cast to
      the C++ type asked for. */
  datatype Error = InvalidArgument | IndexError | RuntimeError | CastError

  datatype Result<T> = Success(value: T) | Failure(error: Error)
}
