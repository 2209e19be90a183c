/** The two result shapes every other module returns. */
module Wrappers {

  datatype Option<+T> = None | Some(value: T)

  /** `Err` carries which of the source's checks refused, not its message text. */
  datatype Result<+T, +E> = Ok(value: T) | Err(error: E)
}
