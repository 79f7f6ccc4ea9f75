/** The optional value used for Java's nullable slots and nullable results. */
module Wrappers {
  datatype Option<T> = None | Some(value: T)
}
