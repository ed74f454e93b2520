/** Option and Result: how the model reports the Python exceptions
    (KeyError, IndexError, ValueError) that end a call early. */
module Results {

  datatype Option<+T> = None | Some(value: T)

  datatype Result<+T, +E> = Success(value: T) | Failure(error: E)
}
