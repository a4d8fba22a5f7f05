/** The optional value used for absent ids, omitted arguments and missing records. */
module Wrappers {
  datatype Option<+T> = None | Some(value: T)
}
