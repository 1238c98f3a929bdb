/** Failure-carrying results for the places where `sphinx_parser/ase.py` raises. */
module Wrappers {

  datatype Option<+T> = None | Some(value: T)

  /** The exceptions the encoder can raise before returning. */
  datatype Error =
    | IndexError      // numpy boolean-mask indexing with a mask of the wrong length
    | NameError(name: string)  // a reference to a name that is not bound

  datatype Result<+T> = Ok(value: T) | Err(error: Error)
}
