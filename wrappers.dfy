/** The "no value" results that the JavaScript code signals with `null` or `undefined`. */
module Wrappers {

  datatype Option<+T> = None | Some(value: T)
}
