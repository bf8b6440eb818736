/** An optional value: the model's stand-in for the source's `undefined` and `null`. */
module Wrappers {

  datatype Option<+T> = None | Some(value: T)
}
