/** The optional result of a lookup: Python's implicit `None` made explicit. */
module Options {

  /** `None` when nothing was found, `Some(value)` otherwise. Unlike Python's
      `None`, this cannot be confused with a found value that is itself absent. */
  datatype Option<+T> = None | Some(value: T)
}
