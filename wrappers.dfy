/** The optional value used for the results of JavaScript's number parsing:
    `None` stands for `NaN`. */
module Wrappers {

  datatype Option<+T> = None | Some(value: T)
}
