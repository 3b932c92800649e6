/** Outcomes of operations that throw in the C++ code: a thrown
    `std::runtime_error` becomes a `Failure` carrying its message, and so does
    a read the C++ leaves undefined. */
module Wrappers {

  datatype Result<T> = Success(value: T) | Failure(error: string)
}
