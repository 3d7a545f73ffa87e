/** The optional value the store returns where the source returns `T | null`. */
module Wrappers {

  datatype Option<+T> = None | Some(value: T)
}
