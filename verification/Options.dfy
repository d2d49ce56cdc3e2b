/** The optional value used for the source's nil pointers, missing keys and failed reads. */
module Options {
  datatype Option<+T> = None | Some(value: T)
}
