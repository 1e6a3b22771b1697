/** An optional value, used for the selected-file state and for searches that may find nothing. */
module Options {

  datatype Option<+T> = None | Some(value: T)
}
