/** The "absent value" convention of the service: a lookup that finds nothing
    yields None where the original yields `undefined`. */
module Wrappers {

  datatype Option<+T> = None | Some(value: T)
}
