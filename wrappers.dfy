/** The optional value used for `filterCompleted` (null, true or false) and
    for the result of `Array.prototype.find`. */
module Wrappers {

  datatype Option<+T> = None | Some(value: T)
}
