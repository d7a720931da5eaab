/** The Go convention of returning `(value, err)` from a fallible call. */
module Wrappers {

  /** `Ok(v)` stands for a Go result `(v, nil)`; `Err(e)` for `(zero value, e)`. */
  datatype Result<+T, +E> = Ok(value: T) | Err(error: E)
}
