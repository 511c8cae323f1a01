/** Missing values and raised errors, as the scripts' tables and calls produce them. */
module Wrappers {

  /** A table cell or lookup that may be missing (pandas' NaN / NA / None). */
  datatype Option<+T> = None | Some(value: T)

  /** The outcome of a step that may raise an exception. */
  datatype Result<+T> = Ok(value: T) | Err(error: string)
}
