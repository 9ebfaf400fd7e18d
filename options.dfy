/** The conventional optional value, used for the pending summary and for the stored record. */
module Options {

  datatype Option<+T> = None | Some(value: T)
}
