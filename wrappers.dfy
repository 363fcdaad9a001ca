/** Optional values and operation outcomes shared by every module of the model. */
module Wrappers {

  /** A value that may be absent: a SQL NULL, a missing row, an unresolved name. */
  datatype Option<+T> = None | Some(value: T)

  /** The `{ success, error }` shape every service and repository call settles into:
      a value on success, the error message otherwise. */
  datatype Result<+T> = Ok(value: T) | Err(error: string)
}
