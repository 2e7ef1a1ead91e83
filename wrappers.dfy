/** Shared result types of the containers. */
module Wrappers {

  /** An absent value: what the peek-style queries return as Python's None. */
  datatype Option<T> = None | Some(value: T)

  /** The two exceptions the containers raise: OverflowError (a bounded
      container is full) and IndexError (an element was asked of an empty one). */
  datatype Error = Overflow | Underflow

  /** The outcome of an operation that either returns a value or raises. */
  datatype Result<T> = Ok(value: T) | Err(error: Error)
}
