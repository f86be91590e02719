/** Small shared vocabulary: optional values, tagged results and bytes. */
module Base {

  datatype Option<+T> = None | Some(value: T)

  /** A success value or one of the failures a store operation raises. */
  datatype Result<+T, +E> = Ok(value: T) | Err(error: E)

  /** One octet of a blob's content. */
  newtype Byte = x: int | 0 <= x < 256

  type Bytes = seq<Byte>

}
