/** The optional value shared by the modules of this model. A Swift
    optional (`T?`) becomes an `Option<T>`. */
module Optionals {

  datatype Option<+T> = None | Some(value: T)
}
