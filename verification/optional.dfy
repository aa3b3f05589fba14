/** A value that may be missing: `None` stands for an absent key, a line that
    does not parse, or an operation that would throw. */
module Optional {
  datatype Option<T> = None | Some(value: T)
}
