/** The optional value used wherever a document, a form field or a response may be absent. */
module Wrappers {
  datatype Option<+T> = None | Some(value: T)
}
