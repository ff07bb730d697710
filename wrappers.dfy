/** Option, the stand-in for the source's `null` returns. */
module Wrappers {

  datatype Option<+T> = None | Some(value: T)
}
