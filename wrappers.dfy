/** An optional value: the model of a TypeScript field that may be `undefined`
    or a variable that may be `null`. */
module Wrappers {

  datatype Option<+T> = None | Some(value: T)
}
