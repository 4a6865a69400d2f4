/** The optional value used wherever the source returns `Optional` or accepts `null`. */
module Wrappers {

  datatype Option<+T> = None | Some(value: T)
}
