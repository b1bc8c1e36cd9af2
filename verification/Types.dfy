/** Types used throughout. */
module Types {
  datatype Option<T> = None | Some(value: T)

  type byte = b: nat | b < 256
}
