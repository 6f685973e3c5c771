/** Basic values shared by the whole model: bytes and optional values. */
module Base {

  /** An unsigned 8-bit value, as `byte` is in .NET. */
  newtype byte = b: int | 0 <= b < 256

  /** A value that may be absent; models a .NET reference that may be null. */
  datatype Option<+T> = None | Some(value: T) {

    /** The value, or `default` when absent (the `??` operator). */
    function GetOr(default: T): T {
      match this
      case Some(v) => v
      case None => default
    }
  }
}
