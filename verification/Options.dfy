/** A value that may be absent: SQL NULL, a JavaScript null answer, or a computation that did not come to an end. */
module Options {
  datatype Option<+T> = None | Some(value: T)
}
