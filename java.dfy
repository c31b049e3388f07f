/** Java values the activity works with: signed bytes, byte arrays and nullable references. */
module Java {

  /** A Java `byte`: a signed two's-complement 8-bit value. */
  newtype JByte = x: int | -128 <= x < 128

  /** A Java `byte[]` that is not null (arrays here are only read, never updated). */
  type Bytes = seq<JByte>

  /** A reference that may be `null`: `None` stands for `null`. */
  datatype Option<+T> = None | Some(value: T)
}
