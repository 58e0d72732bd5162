/** Value wrappers for the two ways a Java call can fail to produce a plain value. */
module Wrappers {

  /** A value that may be absent: Java's `null` result, or a parse that threw. */
  datatype Option<+T> = None | Some(value: T)

  /** A value, or the `IllegalArgumentException` (with its message) that was thrown instead. */
  datatype Result<+T> = Ok(value: T) | IllegalArgument(message: string)
}
