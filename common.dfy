/** Small shared vocabulary: an optional value and the byte type of encoded streams. */
module Common {

  /** `None` stands for a missing value, or for a foreign call that raised. */
  datatype Option<+T> = None | Some(value: T)

  newtype byte = x: int | 0 <= x < 256

  type Bytes = seq<byte>
}
