/** Option and Result values: the Java code signals a missing tree with a null
    reference and an unusable input by exiting; the model returns these instead. */
module Wrappers {

  datatype Option<+T> = None | Some(value: T)

  datatype Result<+T, +E> = Success(value: T) | Failure(error: E)
}
