/** The optional value returned where the source throws or returns nothing. */
module Wrappers {

  datatype Option<+T> = None | Some(value: T)
}
