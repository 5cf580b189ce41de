/** Results of operations that throw in C++. */
module Outcomes {
  datatype Error = DomainError | LengthError | InvalidArgument | DataTooLong

  datatype Result<+T> = Ok(value: T) | Err(error: Error)

  datatype Option<+T> = None | Some(value: T)
}
