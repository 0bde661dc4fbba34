/** Success/failure and option types for the exceptions and optional results of
    the modelled code. */
module Wrappers {

  datatype Option<+T> = None | Some(value: T)

  datatype Result<+T, +E> = Ok(value: T) | Err(error: E)

  /** The standard exceptions the modelled code throws, without their texts. */
  datatype Exception =
    | InvalidArgument
    | OverflowError
    | LengthError
    | OutOfRange
    | LogicError
    | RuntimeError
}
