/** Small shared datatypes. */
module Common {

  /** A value that may be missing: a NULL column, an absent form field, a row not found. */
  datatype Option<+T> = None | Some(value: T)
}
