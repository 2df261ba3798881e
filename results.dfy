/** Outcomes shared by the geometry and loss modules. */
module Results {

  /** The two ways a computation of the library can fail to produce a number. */
  datatype Fault =
    | InvalidBox   // the box validity assertion fails: some width or height is negative
    | NotANumber   // the tensor arithmetic yields IEEE NaN (0/0), which is left unguarded

  datatype Result<T> = Ok(value: T) | Err(fault: Fault)

  /** An optional argument (`weight=None`). */
  datatype Option<T> = None | Some(value: T)
}
