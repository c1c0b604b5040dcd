/** Option and Result carriers shared by the other modules. */
module Wrappers {

  /** A value that may be absent; `None` stands for the null pointer of the runtime. */
  datatype Option<+T> = None | Some(value: T)

  /** Either a value or the reason no value could be produced. */
  datatype Result<+R, +E> = Ok(value: R) | Err(error: E)
}
