/** Option and Result datatypes used for JavaScript's `null` returns and thrown exceptions. */
module Wrappers {

  /** `None` stands for the JavaScript value `null` (or `undefined`) where the source returns it. */
  datatype Option<+T> = None | Some(value: T)

  /** `Err` stands for an exception that aborts the whole operation. */
  datatype Result<+T, +E> = Ok(value: T) | Err(error: E)
}
