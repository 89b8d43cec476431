/** Option and Result, and the exceptions of the Python code as values. */
module Wrappers {

  datatype Option<+T> = None | Some(value: T)

  /** Ok carries a value; Err carries what the Python code would raise instead. */
  datatype Result<+T, +E> = Ok(value: T) | Err(error: E)

  /** The exception classes the modelled code raises or catches.
      FileError stands for the OSError family raised when a path does not exist. */
  datatype Failure =
    | ValueError(message: string)
    | GitError(message: string)
    | FileError(path: string)
    | TypeError(message: string)
}
