/** The optional result of a lookup: the source returns a node pointer or NULL. */
module Opt {

  datatype Option<T> = None | Some(value: T)
}
