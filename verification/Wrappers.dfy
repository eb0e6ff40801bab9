/** A value that may be missing: absent fields, failed parses, refused encodings. */
module Wrappers {
  datatype Option<+T> = None | Some(value: T)
}
