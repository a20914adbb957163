/** The "value or nothing" wrapper used where the Java code returns null or fails. */
module Optional {
  datatype Option<T> = None | Some(value: T)
}
