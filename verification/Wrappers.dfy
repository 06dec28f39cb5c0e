/** The failure-compatible type and the byte the models share. */
module Wrappers {
  datatype Option<+T> = None | Some(value: T)

  type byte = b: int | 0 <= b < 256
}
