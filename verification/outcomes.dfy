/** Failure-carrying datatypes shared by the rest of the model.
- Option<T>: Python's `None` or a value.
- Result<T, E>: a value, or an exception of the known kind `E` that the operation
  raises without changing anything, so the error alone is the result.
- Outcome<T>: a function either returns a value or lets an exception of unspecified
  kind escape; callers record what was done before it next to the outcome.
 */
module Outcomes {

  datatype Option<+T> = None | Some(value: T)

  datatype Result<+T, +E> = Ok(value: T) | Err(error: E)

  /** `Raised` is an exception that propagates out of the modelled function. */
  datatype Outcome<+T> = Returned(value: T) | Raised
}
