/** The usual None/Some datatype, for lookups and parses that may produce nothing. */
module Optional {

  datatype Option<+T> = None | Some(value: T)
}
