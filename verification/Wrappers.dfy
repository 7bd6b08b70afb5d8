/** The stand-in for values that may be missing and for calls that may raise. */
module Wrappers {
  datatype Option<+T> = None | Some(value: T)
}
