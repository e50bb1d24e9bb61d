/** The one helper type that every part of the model shares. */
module Prelude {
  datatype Option<T> = None | Some(value: T)
}
