/** The `| undefined` fields of the hook's request and response types. */
module Options {

  /** A value that may be absent: `None` plays the role of `undefined`. */
  datatype Option<+T> = None | Some(value: T)
}
