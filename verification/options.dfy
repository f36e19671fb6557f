/** A value that may be absent: `None` plays the part of JavaScript's `null` or
    `undefined`, `Some(v)` of a present value `v`. */
module Options {

  datatype Option<+T> = None | Some(value: T)
}
