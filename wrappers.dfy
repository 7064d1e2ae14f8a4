/** Failure-carrying datatypes shared by the Naive Bayes modules.
    A Rust panic (a failed `assert_eq!`, an `unwrap` on `None`, an
    out-of-bounds slice) is modelled as an error value that the caller sees
    instead of a result. */
module Wrappers {

  datatype Option<+T> = None | Some(value: T)

  datatype Result<+T, +E> = Ok(value: T) | Err(error: E)

  datatype Outcome<+E> = Pass | Fail(error: E)
}
