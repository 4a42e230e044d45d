/** A value that may be absent: a config file that could not be read, or a
    record without an `allowedDirectories` field. */
module Optional {
  datatype Option<T> = None | Some(value: T)
}
