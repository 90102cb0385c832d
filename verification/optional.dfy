/** A value that may be absent: a NULL column, an omitted argument, a
    parse that fails. */
module Optional {
  datatype Option<T> = None | Some(value: T)
}
