/** The optional value used where the router's code works with `null` / `undefined`. */
module Wrappers {
  datatype Option<+T> = None | Some(value: T)
}
