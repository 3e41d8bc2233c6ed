/** An optional value: stands for the source's optional record fields
    (`field?: T`) and for values that may be `null` or `undefined`. */
module Wrappers {

  datatype Option<+T> = None | Some(value: T)
}
