/** Failure-carrying results: the exceptions the mask engine throws become values. */
module Wrappers {

  /** An optional reference argument: `None` stands for the source's `null`. */
  datatype Option<+T> = None | Some(value: T)

  /** The exception kinds the modelled code can raise. */
  datatype Error =
    | ArgumentNull          // ArgumentNullException
    | Argument              // ArgumentException (BitArray operands of different lengths)
    | NotSupported          // NotSupportedException
    | NullReference         // a member access through a null reference
    | IndexOutOfRange       // an array or BitArray index outside its bounds
    | DivideByZero          // integer division by zero

  /** A value, or the exception raised instead of it. */
  datatype Result<+T> = Ok(value: T) | Err(error: Error)

  /** The result of an operation that returns nothing but may throw. */
  datatype Outcome = Pass | Fail(error: Error)
}
