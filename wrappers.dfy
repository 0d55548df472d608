/** Small failure-compatible wrappers shared by the other modules. */
module Wrappers {

  /** A value that may be absent: an unset environment variable, a missing
      command-line argument, a file that could not be read. */
  datatype Option<+T> = None | Some(value: T)
}
