/** Small failure-carrying datatypes shared by the validators and the forms. */
module Outcomes {

  /** A value that may be absent, as Python's `None` default arguments are. */
  datatype Option<+T> = None | Some(value: T)

  /** A pass/fail verdict carrying the reason for failure, the shape of a
      validator that either returns normally or raises. */
  datatype Outcome<+E> = Pass | Fail(error: E)

  /** A computed value or an error, the shape of a form `clean` hook that
      either returns the cleaned value or raises. */
  datatype Result<+T, +E> = Ok(value: T) | Err(error: E)
}
