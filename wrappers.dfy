/** The optional value Kotlin writes as a nullable type. */
module Wrappers {
  datatype Option<+T> = None | Some(value: T)
}
