/** The two result shapes of the analyzer: a value that may be absent, and an answer that may be an error. */
module Wrappers {
  datatype Option<+T> = None | Some(value: T)

  /** An error carries no text: which statement failed is modelled, its wording is not. */
  datatype Result<+T> = Ok(value: T) | Err
}
