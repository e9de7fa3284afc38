/** The optional value used for a layer's nullable selection and for a render that may yield no image. */
module Wrappers {

  datatype Option<+T> = None | Some(value: T)
}
