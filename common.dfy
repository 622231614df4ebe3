/** Small shared vocabulary: an optional value. */
module Common {

  /** A value that may be absent (Go's nil pointer, a map miss, a parse that fails). */
  datatype Option<+T> = None | Some(value: T)
}
