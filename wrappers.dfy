/** The optional value the processor hands back: a proposal or nothing, a preview or nothing. */
module Wrappers {
  datatype Option<+T> = None | Some(value: T)
}
