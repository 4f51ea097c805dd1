/** The usual optional-value datatype; `None` marks the points where the
    transpiler raises instead of producing a value. */
module Options {
  datatype Option<T> = None | Some(value: T)
}
