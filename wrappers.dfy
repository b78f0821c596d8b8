/** Option and Result values standing for Python's `None` and raised exceptions. */
module Wrappers {

  datatype Option<+T> = None | Some(value: T)

  /** The Python exceptions the modelled code can raise. */
  datatype Error =
    | KeyError        // a dictionary key or a network property is missing
    | TypeError       // item assignment on a value that is not a dictionary
    | IndexError      // an index outside the array
    | RecursionError  // `__missing__` re-entered without end
    | UnboundLocal    // a local variable read before any assignment

  datatype Result<+T> = Ok(value: T) | Err(error: Error)
}
