/** The part of Rust's `io` module that a stream slice consumes: fixed-width
    integers, error kinds, results and the three seek origins. */
module Io {

  /** 2^64: one more than the largest `u64`. */
  const U64_LIMIT: int := 0x1_0000_0000_0000_0000
  /** 2^63: one more than the largest `i64`. */
  const I64_LIMIT: int := 0x8000_0000_0000_0000

  type uint8 = x: int | 0 <= x < 0x100
  type uint64 = x: int | 0 <= x < 0x1_0000_0000_0000_0000
  type int64 = x: int | -0x8000_0000_0000_0000 <= x < 0x8000_0000_0000_0000

  /** The error kinds this model produces: a rejected argument, a `write_all`
      that could not place its whole buffer, and a failure of the device. */
  datatype ErrorKind = InvalidInput | WriteZero | Other

  /** An I/O error; only its kind is modelled, not its message. */
  datatype Error = Error(kind: ErrorKind)

  datatype Result<T> = Ok(value: T) | Err(error: Error)

  /** Rust's `io::SeekFrom`: an unsigned offset from the start, or a signed
      offset from the end or from the current position. */
  datatype SeekFrom = Start(offset: uint64) | End(delta: int64) | Current(delta: int64)

  /** `core::cmp::min`. */
  function Min(a: int, b: int): (m: int)
    ensures m <= a && m <= b
    ensures m == a || m == b
  {
    if a <= b then a else b
  }
}
