/** Optional values and outcomes shared by the whole model. */
module Results {

  /** A value that may be absent. For `parseInt`, `None` stands for `NaN`. */
  datatype Option<+T> = None | Some(value: T)

  /** The outcome of an operation that can throw: `Err` carries what was thrown. */
  datatype Result<+T, +E> = Ok(value: T) | Err(error: E)
}
