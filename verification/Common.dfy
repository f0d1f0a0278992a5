/** Types used throughout. */
module Common {
  type Positive = n: nat | n >= 1 witness 1

  datatype Option<T> = None | Some(value: T)
}
