/** Optional values, used for the attributes and fields the page may leave undefined. */
module Wrappers {

  /** `None` stands for JavaScript's `undefined`/`null`. */
  datatype Option<+T> = None | Some(value: T)
}
