/** The Option type standing in for Java's nullable results. */
module Wrappers {

  datatype Option<+T> = None | Some(value: T)
}
