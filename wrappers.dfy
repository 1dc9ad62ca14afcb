/** The "absent value" signal used by every lookup of the stores: `undefined` in the source. */
module Wrappers {

  datatype Option<+T> = None | Some(value: T)
}
