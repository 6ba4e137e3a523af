/** Shared helper types. */
module Base {

  /** A value that may be absent; in the JavaScript model `None` stands for `undefined`. */
  datatype Option<+T> = None | Some(value: T)

}
