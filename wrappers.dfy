/** The optional value used wherever the script reads something that may be
    absent: a storage entry, an attribute, a map lookup, a parse result. */
module Wrappers {

  datatype Option<+T> = None | Some(value: T)
}
