/** Vocabulary shared by every page of the model: optional values and bytes. */
module Common {

  /** A value that may be absent: JavaScript's `null`/`undefined` versus a present value. */
  datatype Option<+T> = None | Some(value: T) {

    /** The present value, or `default` when absent: JavaScript's `x ?? default`. */
    function GetOr(default: T): T {
      match this
      case Some(v) => v
      case None => default
    }
  }

  /** An octet, as produced by UTF-8 encoding and consumed by percent-decoding. */
  type Byte = b: int | 0 <= b < 256
}
