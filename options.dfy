/** The optional value the source returns from lookups, reads and scans. */
module Options {
  datatype Option<+T> = None | Some(value: T)
}
