/** Types shared by every module of the model. */
module Common {

  /** One element of a `Uint8Array`: an unsigned 8-bit value. */
  type Byte = b: int | 0 <= b < 256

  /** A value that may be missing: a storage key that is absent, or a host call that throws. */
  datatype Option<T> = None | Some(value: T)
}
