/** The optional value used for the application's "no observer yet" and
    "no settings written yet" states. */
module Wrappers {

  datatype Option<+T> = None | Some(value: T)

}
