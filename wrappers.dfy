/** The optional value that stands in for Java's null. */
module Wrappers {

  datatype Option<+T> = None | Some(value: T)
}
