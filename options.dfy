/** An optional value, for lookups and parses that can come back empty. */
module Options {
  datatype Option<+T> = None | Some(value: T)
}
