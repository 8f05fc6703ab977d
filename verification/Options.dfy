/** Values that may be missing: Python's None, NULL pointers and failed look-ups. */
module Options {

  datatype Option<+T> = None | Some(value: T)
}
