/** Small shared vocabulary for the container models. */
module Wrappers {
  /** The outcome of a checked accessor: `Some(v)` where the C function returns true
      and writes `v` through its out-parameter, `None` where it returns false and
      leaves the out-parameter untouched (or returns NULL). */
  datatype Option<T> = None | Some(value: T)

  function Max(a: int, b: int): int { if a < b then b else a }
}
