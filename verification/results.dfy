/** Failure-carrying return values shared by the model.
    - Outcome<E> stands for Go's `error` return: nil (Pass) or a non-nil error (Fail).
    - Result<T, E> stands for a value-or-abort computation such as loading the store.
 */
module Results {

  datatype Outcome<+E> = Pass | Fail(error: E)

  datatype Result<+T, +E> = Ok(value: T) | Err(error: E)
}
