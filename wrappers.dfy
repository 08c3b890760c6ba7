/** The generator's result: the record, or why the input was rejected. */
module Wrappers {

  datatype Result<+T, +E> = Success(value: T) | Failure(error: E)
}
