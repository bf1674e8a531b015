/** Failure-compatible option and result types. A fragment factory that the
    C++ library rejects at compile time (a failing `static_assert`) returns
    `Err` here; a legal construction returns `Ok`. */
module Wrappers {

  datatype Option<+T> = None | Some(value: T)

  datatype Result<+T, +E> = Ok(value: T) | Err(error: E) {

    predicate IsFailure() {
      Err?
    }

    function PropagateFailure<U>(): Result<U, E>
      requires Err?
    {
      Err(error)
    }

    function Extract(): T
      requires Ok?
    {
      value
    }
  }
}
