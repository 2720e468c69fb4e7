/** The optional value used wherever the modelled code can fail or return `None`. */
module Wrappers {

  datatype Option<+T> = None | Some(value: T)
}
