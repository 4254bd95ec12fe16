/** Python's `None`-or-value results, as an option type. */
module Wrappers {

  /** `None` stands for Python's implicit `None` return of a function that
      falls off the end of an `if`/`elif` chain. */
  datatype Option<+T> = None | Some(value: T)
}
