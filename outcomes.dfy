/** Result and option types shared by the modules of the model. */
module Outcomes {
  /** Either a value or the error the source would raise instead. */
  datatype Result<+T, +E> = Ok(value: T) | Err(error: E)

  /** A value that may be absent. */
  datatype Option<+T> = None | Some(value: T)
}
