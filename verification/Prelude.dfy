/** The two failure-carrying datatypes that the models share. */
module Prelude {

  /** A value that Ruby code would represent by `nil` when absent. */
  datatype Option<+T> = None | Some(value: T)

  /** The outcome of Ruby code that may raise; the error says which exception class is raised. */
  datatype Result<+T, +E> = Ok(value: T) | Err(error: E)
}
