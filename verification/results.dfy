/** Outcome types for operations that, in the Java code, either return a
    value or throw. */
module Results {

  /** A returned value, or the exception thrown instead of returning. */
  datatype Result<+T, +E> = Success(value: T) | Failure(error: E)

  /** An optional value; `None` stands for Java's `null`. */
  datatype Option<+T> = None | Some(value: T)
}
