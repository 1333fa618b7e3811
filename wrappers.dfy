/** Python's "value or None", used wherever the modelled code may produce None. */
module Wrappers {

  datatype Option<+T> = None | Some(value: T)
}
