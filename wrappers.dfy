/** The optional value used for `RegExp.prototype.exec`'s `null`, for
    `Array.prototype.find`'s `undefined` and for absent front-matter keys. */
module Wrappers {
  datatype Option<+T> = None | Some(value: T)
}
