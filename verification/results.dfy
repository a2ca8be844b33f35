/** Optional values, standing in for Go's nil-able error returns. */
module Results {

  /** `None` plays the part of a nil error; `Some(text)` carries a non-nil one. */
  datatype Option<+T> = None | Some(value: T)
}
