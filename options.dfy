/** Python's `None`-or-value, as used for the optional jobs hint and the optional coverage bundle. */
module Options {

  datatype Option<+T> = None | Some(value: T)
}
