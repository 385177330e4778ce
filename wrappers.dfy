/** Option: absent values (Java's null). */
module Wrappers {

  /** A value that may be absent; `None` stands for a Java null. */
  datatype Option<+T> = None | Some(value: T)
}
