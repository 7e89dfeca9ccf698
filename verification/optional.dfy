/** `None` stands for Python's `None` (no action chosen, or the root's missing move). */
module Optional {
  datatype Option<T> = None | Some(value: T)
}
