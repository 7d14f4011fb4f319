/** Success-or-nothing and success-or-error values, used wherever the program returns a nil pointer or an error. */
module Options {

  datatype Option<+T> = None | Some(value: T)

  datatype Result<+T, +E> = Success(value: T) | Failure(error: E)
}
