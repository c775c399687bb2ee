/** The Option datatype used for lookups that can miss and for JavaScript's
    `undefined` / `null` results. */
module Wrappers {

  datatype Option<+T> = None | Some(value: T)

}
