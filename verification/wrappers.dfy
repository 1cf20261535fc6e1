/** An optional value: a key of the user-input dictionary that may be absent. */
module Wrappers {

  datatype Option<+T> = None | Some(value: T)
}
