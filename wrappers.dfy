/** The optional-value datatype used for Java's `Optional` and for values that may be `null`. */
module Wrappers {

  datatype Option<+T> = None | Some(value: T)
}
