/** Small shared datatypes. */
module Common {

  /** A value that may be absent: a JavaScript `undefined` setting, a failed parse. */
  datatype Option<+T> = None | Some(value: T)
}
