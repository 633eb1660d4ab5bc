/** Optional values: `None` stands for JavaScript's `undefined`/`null` or for a
    failed step, `Some(v)` for a present value. */
module Wrappers {

  datatype Option<+T> = None | Some(value: T)
}
