/** Results, options and errors shared by every module. */
module Basics {

  datatype Option<+T> = None | Some(value: T)

  datatype Result<+T> = Ok(value: T) | Err(error: SdbError)

  /** The error cases of the store, without their message text. */
  datatype SdbError =
    | Corrupt
    | UnexpectedNode
    | IndexOutOfRange
    | InvalidPath
    | UniqueViolation
    | SchemaMismatch
    | IndexNotFound
    | IndexArity
}
