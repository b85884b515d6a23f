/** Option and Result values shared by every module of the model. */
module Wrappers {

  datatype Option<T> = None | Some(value: T)

  /** The outcome of Python code that may raise: `Raised` stands for an
      exception (always a `ValueError` in the code modelled here). */
  datatype Result<T> = Ok(value: T) | Raised
}
