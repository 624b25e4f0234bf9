/** The optional value used for per-slot payloads: absent is never confused with a zero position. */
module Wrappers {

  datatype Option<+T> = None | Some(value: T)
}
