/** The null-or-value wrapper used throughout the model, and the error results
    for the places where the source throws. */
module Optional {

  datatype Option<+T> = None | Some(value: T)

  /** The .NET exceptions that the modelled code can raise. */
  datatype Fault =
    | ArgumentNull      // a null dictionary key
    | KeyNotFound       // a dictionary read of a missing key
    | DuplicateKey      // `Dictionary.Add` of a key already present
    | NullReference     // a member access on a missing component
    | Format            // `String.Format` of a malformed format string

  datatype Result<+T> = Ok(value: T) | Err(fault: Fault)
}
