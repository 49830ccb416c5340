/** An optional value, for attributes a record may or may not carry and for
    searches that may find nothing. */
module Wrappers {

  datatype Option<T> = None | Some(value: T)
}
