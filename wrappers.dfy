/** The "no value" results of the containers: `undefined` and `null` in the
    source both become `None`. */
module Wrappers {

  datatype Option<+T> = None | Some(value: T)
}
