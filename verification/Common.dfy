/** Datatypes shared by every component of the model. */
module Common {

  /** The source's byte slices, where only their contents matter (the bech32 modules use bit vectors). */
  newtype byte = x: int | 0 <= x < 256

  type Bytes = seq<byte>

  /** A value the source returns with a nil error, or `None` where it returns an error. */
  datatype Option<+T> = None | Some(value: T)

  datatype Result<+T, +E> = Ok(value: T) | Err(error: E)
}
