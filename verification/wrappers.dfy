/** Option and Result, used for nullable columns, lookups that may find nothing
    and store operations that may throw. */
module Wrappers {

  datatype Option<+T> = None | Some(value: T)

  datatype Result<+T> = Ok(value: T) | Err(message: string)
}
