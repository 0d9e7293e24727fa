/** Optional values: a number that may be absent (an empty input field) or a
    quotient that JavaScript would have turned into Infinity or NaN. */
module Wrappers {

  datatype Option<+T> = None | Some(value: T)
}
