/** Small failure-carrying datatypes shared by the model. */
module Wrappers {

  /** A value that may be absent (PHP `null`, a missing header, `false` from an encoder). */
  datatype Option<+T> = None | Some(value: T)
}
