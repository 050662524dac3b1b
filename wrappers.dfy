/** The optional value used for nullable strings, optional attributes and
    absent pointers throughout the model. */
module Wrappers {

  datatype Option<+T> = None | Some(value: T)
}
