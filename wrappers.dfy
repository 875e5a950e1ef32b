/** Optional values and the Python exceptions that can escape the extractor. */
module Wrappers {

  datatype Option<+T> = None | Some(value: T)

  /** The exceptions the modelled code can raise and does not catch: calling `.strip()` or
      `.get()` on a value of the wrong kind (AttributeError), and iterating a number or a
      boolean (TypeError). */
  datatype Exc = AttributeError | TypeError

  /** A computation that returns a value or raises one of the exceptions above. */
  datatype Result<+T> = Ok(value: T) | Raised(exc: Exc)
}
