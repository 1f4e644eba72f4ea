/** Option, the value-or-nothing result used by lookups and parsers. */
module Wrappers {

  datatype Option<+T> = None | Some(value: T)
}
