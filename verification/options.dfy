/** The optional-value datatype shared by the pool and the client models. */
module Options {

  /** `None` stands for Python's `None` (a missing key, an absent page token). */
  datatype Option<+T> = None | Some(value: T)
}
