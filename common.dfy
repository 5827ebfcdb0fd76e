/** Option and Result values shared by every module: a missing value, and an
    operation that can raise one of the exceptions the source raises. */
module Common {

  datatype Option<+T> = None | Some(value: T)

  /** The Python exceptions the modelled code can raise. */
  datatype Error =
    | ValueError     // bad argument (no lookup and no frame, unknown height format)
    | IndexError     // `candidates[0]` on an empty candidate list of a caller-built lookup
    | OverflowError  // `int(round(float('inf')))`
    | KeyError       // a column the table does not have

  datatype Result<+T> = Ok(value: T) | Err(error: Error)
}
