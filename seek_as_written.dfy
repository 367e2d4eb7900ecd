/** The seek target as the source computes it: every operand is turned into
    an `i64` with `as` (two's-complement reinterpretation) and added in `i64`
    arithmetic, which wraps on overflow in release builds. For windows under
    2^63 bytes this agrees with `SliceSpec.ResolveSeek`; for larger windows it
    refuses positions that lie inside the window. */
module SeekAsWritten {
  import opened Io
  import opened SliceSpec

  /** `v as i64` for a `u64` value. */
  function AsI64(v: uint64): (r: int64)
    ensures r == v || r == v - U64_LIMIT
    ensures 0 <= r <==> v < I64_LIMIT
  {
    if v < I64_LIMIT then v else v - U64_LIMIT
  }

  /** `a + b` on `i64`, wrapping around on overflow. */
  function WrappingAdd(a: int64, b: int64): (r: int64)
    ensures -I64_LIMIT <= a + b < I64_LIMIT ==> r == a + b
    ensures r == a + b || r == a + b - U64_LIMIT || r == a + b + U64_LIMIT
  {
    var sum := a + b;
    if sum >= I64_LIMIT then sum - U64_LIMIT
    else if sum < -I64_LIMIT then sum + U64_LIMIT
    else sum
  }

  /** `new_offset` as the match over the seek origin computes it. */
  function SeekTargetAsWritten(pos: SeekFrom, cur: uint64, size: uint64): int64
  {
    match pos
    case Current(x) => WrappingAdd(AsI64(cur), x)
    case Start(x) => AsI64(x)
    case End(x) => WrappingAdd(AsI64(size), x)
  }

  /** The validation as written: a negative `new_offset`, or one above the
      size once turned back into a `u64`, is an invalid seek. */
  function ResolveSeekAsWritten(pos: SeekFrom, cur: uint64, size: uint64): (r: Result<nat>)
    ensures r.Ok? ==> r.value <= size
    ensures r.Err? ==> r.error == Error(InvalidInput)
  {
    var newOffset := SeekTargetAsWritten(pos, cur, size);
    if newOffset < 0 || newOffset > size then Err(Error(InvalidInput)) else Ok(newOffset)
  }

  /** Below 2^63 bytes the wrapped arithmetic accepts and refuses exactly
      the seeks the window allows, with the same target. */
  lemma AgreesBelowHalfRange(pos: SeekFrom, cur: uint64, size: uint64)
    requires cur <= size < I64_LIMIT
    ensures ResolveSeekAsWritten(pos, cur, size) == ResolveSeek(pos, cur, size)
  {
    match pos
    case Start(x) =>
    case Current(x) =>
      assert AsI64(cur) == cur;
    case End(x) =>
      assert AsI64(size) == size;
  }

  /** From 2^63 bytes on, seeking to the end of the window is refused
      although the window accepts it. */
  lemma RefusesEndOfLargeWindow(cur: uint64, size: uint64)
    requires cur <= size && I64_LIMIT <= size
    ensures ResolveSeekAsWritten(End(0), cur, size) == Err(Error(InvalidInput))
    ensures ResolveSeek(End(0), cur, size) == Ok(size)
  {
  }
}
