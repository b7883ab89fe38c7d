/** The optional value the report functions return where the source returns `None`. */
module Wrappers {

  datatype Option<+T> = None | Some(value: T)
}
