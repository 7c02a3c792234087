/** Option type used for the source's nullable results and thrown exceptions. */
module Wrappers {

  datatype Option<+T> = None | Some(value: T)

}
