/** Option type shared by the models (a null pointer or an absent value). */
module Wrappers {
  datatype Option<+T> = None | Some(value: T)
}
