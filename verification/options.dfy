/** The optional-value type used for every fallible step of the model. */
module Options {

  /** A value that may be absent: `None` stands for a failed conversion or lookup. */
  datatype Option<+T> = None | Some(value: T)
}
