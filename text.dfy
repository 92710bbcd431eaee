/** Characters and failure-carrying wrappers shared by the client model. */
module Text {

  /** The ASCII digits `[0-9]`. */
  predicate IsDigit(c: char) {
    '0' <= c <= '9'
  }

  /** A value or its absence; the client returns Python's `False` where this model returns `None`. */
  datatype Option<+T> = None | Some(value: T)

  /** A value or the Python exception the source would raise instead. */
  datatype Result<+T, +E> = Success(value: T) | Failure(error: E)
}
