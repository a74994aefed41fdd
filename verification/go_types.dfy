/** Go value types the model needs: fixed-width integers and the usual Option/Result pair. */
module GoTypes {

  /** Go's `byte` (= `uint8`). */
  newtype uint8 = x: int | 0 <= x < 0x100

  /** Go's `int32`. */
  newtype int32 = x: int | -0x8000_0000 <= x < 0x8000_0000

  datatype Option<+T> = None | Some(value: T) {
    function GetOr(default: T): T {
      match this
      case Some(v) => v
      case None => default
    }
  }

  datatype Result<+T, +E> = Ok(value: T) | Err(error: E)
}
