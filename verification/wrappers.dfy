/** Failure-compatible wrappers used by both hash maps. */
module Wrappers {

  /** An optional value; `None` also stands for a Java `null` reference. */
  datatype Option<+T> = None | Some(value: T)

  /** The outcome of an operation that may throw. */
  datatype Result<+T, +E> = Success(value: T) | Failure(error: E) {

    predicate IsFailure() {
      Failure?
    }

    function PropagateFailure<U>(): Result<U, E>
      requires Failure?
    {
      Failure(error)
    }

    function Extract(): T
      requires Success?
    {
      value
    }
  }
}

/** The Java exceptions the two maps can raise. */
module Exceptions {

  datatype Error =
    | IllegalArgument   // null, duplicate or absent key
    | NoSuchElement     // iterator advanced past its end
    | IndexOutOfBounds  // an array or list index outside its bounds
    | NullPointer       // a method called on a null slot
}
