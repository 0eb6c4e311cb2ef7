/** The optional-value and outcome types shared by the aggregation modules. */
module Wrappers {

  /** A value that may be absent: a missing (NaN / NaT) cell of the order table. */
  datatype Option<+T> = None | Some(value: T)

  /** The outcome of a helper that can raise: `Err` carries the exception's message. */
  datatype Result<+T> = Ok(value: T) | Err(message: string)
}
