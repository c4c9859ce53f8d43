/** Python's `None`-or-value, as used for optional attributes and results. */
module Optional {

  datatype Option<+T> = None | Some(value: T)

}
