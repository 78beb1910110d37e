/** Datatypes shared by every other module. */
module Prelude {

  datatype Option<+T> = None | Some(value: T)

}
