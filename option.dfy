/** The optional value used wherever the modelled Python code either produces a
    value or raises (or returns None). */
module Opt {

  datatype Option<+T> = None | Some(value: T)
}
