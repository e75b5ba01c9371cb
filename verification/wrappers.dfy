/** Option, used for buffer lookups and for the timer's race-name gate. */
module Wrappers {

  datatype Option<+T> = None | Some(value: T)
}
