/** The optional value used where the Java code works with references that
    may be null. */
module Wrappers {

  /** A possibly-null reference: `None` is Java's `null`. */
  datatype Option<+T> = None | Some(value: T)
}
