/** Small shared vocabulary: optional values (Java's nullable references). */
module Common {

  /** `None` stands for a Java `null` reference. */
  datatype Option<+T> = None | Some(value: T)
}
