/** A nullable column value: SQL NULL is `None`. */
module Nullable {

  datatype Option<+T> = None | Some(value: T)
}
