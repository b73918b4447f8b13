/**
 The two shapes every command handler's answer takes: a value that may be
 absent, and a value or the error the handler reports instead.
 */
module Outcomes {

  /** A value that may be missing, as Python's `None` or a lookup miss. */
  datatype Option<+T> = None | Some(value: T)

  /** Either the command's value or the error it reports. */
  datatype Result<+T, +E> = Ok(value: T) | Err(error: E)
}
