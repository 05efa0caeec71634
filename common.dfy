/** Small value wrappers shared by every module of the model. */
module Common {

  /** A value that may be absent: a missing row, `undefined` or a JavaScript `NaN`. */
  datatype Option<+T> = None | Some(value: T)

  /** The outcome of an operation that either produces a value or throws an error. */
  datatype Result<+T, +E> = Ok(value: T) | Err(error: E)

  /** JavaScript truthiness of an optional number: `undefined`, `NaN` and `0` are falsy. */
  predicate Truthy(n: Option<int>)
  {
    n.Some? && n.value != 0
  }
}
