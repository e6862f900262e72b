/** Option and Result, used wherever the source returns None or raises. */
module Wrappers {

  datatype Option<+T> = None | Some(value: T)

  datatype Result<+T, +E> = Success(value: T) | Failure(error: E) {
    predicate IsFailure() {
      Failure?
    }
  }
}

/** The Python exceptions the modelled code raises, as the failure side of a `Result`. */
module Exceptions {

  datatype Error = KeyError | ValueError | IndexError | TypeError | AttributeError
}
