/** Ruby's nil-or-value, written as the usual Option datatype. */
module Wrappers {

  datatype Option<+T> = None | Some(value: T)
}
