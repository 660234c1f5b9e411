/** The optional value returned by `try_pop` (std::optional in the source). */
module Wrappers {

  datatype Option<T> = None | Some(value: T)
}
