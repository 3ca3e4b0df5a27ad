/** Failure-aware datatypes shared by the resolver modules: `None` plays the
    role of JavaScript's `null` / `undefined`, and `Failure` that of an
    exception thrown during construction. */
module Wrappers {

  datatype Option<+T> = None | Some(value: T)

  datatype Result<+T, +E> = Success(value: T) | Failure(error: E)
}
