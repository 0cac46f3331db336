/** Option, the value-level stand-in for Java's null and for a thrown exception. */
module Wrappers {

  datatype Option<+T> = None | Some(value: T)
}
