/** The optional value used wherever the Go code has a nil-able or missing result. */
module Wrappers {

  datatype Option<+T> = None | Some(value: T)
}
