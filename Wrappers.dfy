/** An optional value: `None` stands for JavaScript's `undefined` (or `NaN`
    where a number failed to parse). */
module Wrappers {

  datatype Option<+T> = None | Some(value: T)
}
