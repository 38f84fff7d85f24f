/** The optional value used wherever the organiser has `null`, `undefined` or "no match". */
module Wrappers {

  datatype Option<+T> = None | Some(value: T)
}
