/** Datatypes every other module uses. */
module Common {

  /** A value that may be missing: `undefined` or `None` in the programs modelled. */
  datatype Option<+T> = None | Some(value: T) {
    function GetOr(default: T): T {
      if Some? then value else default
    }
  }

  /** A call that either returns a value or raises. */
  datatype Result<+T, +E> = Ok(value: T) | Err(error: E)

  type Byte = n: nat | n < 256
}
