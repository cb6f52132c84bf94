/** The optional value used for "not set" configuration and partial decoders. */
module Wrappers {
  datatype Option<+T> = None | Some(value: T)
}
