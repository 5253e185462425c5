/** The conventional optional-value datatype, used for JavaScript `undefined`
    (a missing field), for `NaN` from `parseInt`, and for "not found". */
module Wrappers {

  datatype Option<+T> = None | Some(value: T)

}
