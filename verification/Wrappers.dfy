/** Small types that the other modules share. */
module Wrappers {
  datatype Option<T> = None | Some(value: T)

  type byte = b: int | 0 <= b < 256

  /** Memory of a device, by byte address. */
  type Memory = nat -> byte
}
