/** Failure-compatible result used where the counters can raise a decoding error. */
module Wrappers {

  datatype Option<+T> = None | Some(value: T)
}
