/** Failure-compatible wrappers used across the model: a nullable value and an outcome that
    either carries a value or the error the pipeline raises. */
module Options {

  /** A value that may be null, as a cell of a data frame may be. */
  datatype Option<+T> = None | Some(value: T)

  /** The outcome of a step that can raise: its value, or the error it raises. */
  datatype Result<+T, +E> = Success(value: T) | Failure(error: E)
}
