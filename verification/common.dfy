/** Shared vocabulary of the model: optional values, bytes and the unsigned
    64-bit integers (`quint64`) the update metadata is made of. */
module Common {

  /** A value that may be absent (a null pointer, a failed conversion). */
  datatype Option<+T> = None | Some(value: T) {
    /** The value, or the given default when absent. */
    function GetOr(default: T): T {
      match this
      case Some(v) => v
      case None => default
    }
  }

  /** One octet of a file or of a network response body. */
  type byte = x: int | 0 <= x < 256

  /** 2^64: one more than the largest `quint64`. */
  const U64_LIMIT: int := 0x1_0000_0000_0000_0000

  /** An unsigned 64-bit integer (`quint64`). */
  type u64 = x: int | 0 <= x < U64_LIMIT
}
