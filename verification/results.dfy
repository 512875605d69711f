/** Failure-carrying values used in place of the Java exceptions and
    `null`-free optional results. */
module Results {

  /** An optional value: `None` stands for a failed conversion. */
  datatype Option<+T> = None | Some(value: T)

  /** Either a value or the error that stopped the computation. */
  datatype Result<+T, +E> = Ok(value: T) | Err(error: E)
}
