/** The optional value used by the searches and by heap_pop's NULL result. */
module Wrappers {
  datatype Option<T> = None | Some(value: T)
}
