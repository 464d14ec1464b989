/** The exceptions the modelled code raises, and a result type that carries
    either a returned value or the exception that was raised instead. */
module Errors {

  /** Python exceptions raised by the cache and the cycler. */
  datatype Exception =
    | KeyError       // a missing key in a dict lookup or deletion
    | IndexError     // indexing or popping an empty deque
    | RuntimeError   // a Cycler built from no items

  /** Either the value an operation returned or the exception it raised. */
  datatype Result<+T> = Ok(value: T) | Raised(error: Exception)

  /** An optional value; `None` stands for an absent element. */
  datatype Option<+T> = None | Some(value: T)
}
