// The present-or-absent result shared by the lookups of every component.
module Options {
  datatype Option<+T> = None | Some(value: T)
}
