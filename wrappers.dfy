/** An optional value, for the `null` that a lookup on an empty stack returns. */
module Wrappers {

  datatype Option<+T> = None | Some(value: T)
}
