/** Option, used where the source returns a null pointer, throws, or runs out of a bound. */
module Wrappers {

  datatype Option<+T> = None | Some(value: T)
}
