/** The optional value used wherever the Java code may produce `null` or throw. */
module Wrappers {

  datatype Option<+T> = None | Some(value: T)
}
