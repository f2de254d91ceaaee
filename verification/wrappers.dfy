/** An optional value, used where the modelled program returns a value or
    nothing (a read error, a malformed text). */
module Wrappers {

  datatype Option<+T> = None | Some(value: T)
}
