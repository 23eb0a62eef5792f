/** An optional value: JSON fields that may be absent, lookups that may miss. */
module Options {

  datatype Option<+T> = None | Some(value: T)
}
