/** Java's nullable references, made explicit. */
module Optional {

  /** `None` stands for Java's `null`. */
  datatype Option<+T> = None | Some(value: T)
}
