/** Small failure-carrying datatypes used in place of Python's `None` results
    and raised exceptions. */
module Wrappers {

  /** A value that may be absent (Python's `Optional[...]`). */
  datatype Option<+T> = None | Some(value: T)

  /** The outcome of an operation that returns nothing on success and
      raises an error otherwise. */
  datatype Outcome<+E> = Pass | Fail(error: E)
}
