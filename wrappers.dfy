/** The optional value used for fields that the extraction tool may leave out
    and for request parameters that may be absent. */
module Wrappers {

  datatype Option<+T> = None | Some(value: T)

}
