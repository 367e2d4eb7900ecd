# Stream slice

A model of `StreamSlice`, the wrapper that exposes the window
`[start_offset, end_offset)` of a seekable byte stream as a stream of its
own, with positions counted from 0 and `size == end_offset - start_offset`.
Reads and writes are clamped to what is left of the window and advance the
slice's position by what the wrapped stream actually moved; seeks from the
start, the current position or the end are checked against `[0, size]`
before the wrapped stream is moved.

The project is in five modules:

- `Io` (`io.dfy`): the machine integer ranges (`uint8`, `uint64`, `int64`),
  the I/O error kinds the slice can report, `Result`, and `SeekFrom`.
- `Cursors` (`cursor.dfy`): the wrapped stream, an in-memory cursor over a
  fixed-length byte array, in the manner of `io::Cursor<&mut [u8]>` (the
  repository's test wraps a growable `io::Cursor<Vec<u8>>`, which it never
  writes past the end of), with a `failing` flag that makes every call fail so that the slice's
  error propagation can be stated. Reads and writes stop at the end of the
  data (short transfers); a seek to any `u64` position succeeds.
- `SliceSpec` (`slice_spec.dfy`): the slice's behaviour on values. A
  `State` is the device's bytes plus the logical position; `Step` is one
  `seek`, `read` or `write`, `Run` a sequence of them, `Transfer` the count a
  read or write moves, `ResolveSeek` the validated seek target and `Rest`
  what reading to the end returns. The lemmas say what steps do together:
  a read takes the front of what is left, writes compose, a written byte
  reads back, nothing outside the window ever changes.
- `StreamSlices` (`stream_slice.dfy`): the class `StreamSlice`, with the
  source's fields and methods, each proved to take exactly the step
  `SliceSpec.Step` describes while keeping the invariant `Valid()`: the
  position stays within `[0, size]` and the wrapped stream sits at
  `start_offset + current_offset`. `ReadToEnd` and `WriteAll` are the
  standard library's `read_to_string`/`read_to_end` and `write_all` loops
  that the test runs on top of `read` and `write`.
- `SeekAsWritten` (`seek_as_written.dfy`): the seek target as the source
  computes it in `i64`, compared with the intended one (see Findings).
- `Scenario` (`scenario.dfy`): the repository's `it_works` test, its four
  `assert_eq!`/`assert!` outcomes as postconditions and every `unwrap`
  proved in the body to meet an `Ok`; and a slice over a device that fails,
  showing which errors the slice raises itself and which it passes on.

`Read` requires that the buffer is not the wrapped stream's own storage,
which Rust's borrow rules guarantee for `&mut [u8]`.

## Model

| member | source | states |
|---|---|---|
| StreamSlices.StreamSlice.constructor | src/stream_slice.rs:24-29 | the fields hold the given stream, start and size, and the position is 0 |
| StreamSlices.StreamSlice.New | src/stream_slice.rs:20-30 | on success a fresh valid slice over the given stream with `size == end - start`, position 0 and the stream at absolute `start`; a failed inner seek is passed on as the error, no slice is made and the stream has not moved |
| StreamSlices.StreamSlice.IntoInner | src/stream_slice.rs:33-35 | returns the very stream the slice wraps, left at the absolute position `start + current` |
| StreamSlices.StreamSlice.Read | src/stream_slice.rs:42-47 | moves `Transfer` bytes, never more than is left of the window or than the buffer holds; the buffer's front holds the next bytes of the window and the rest of it is untouched; the position advances by the count; an inner error is passed on and changes nothing; the invariant is kept |
| StreamSlices.StreamSlice.Write | src/stream_slice.rs:51-56 | writes only the part of `buf` that fits in the window and the device, reports that count (a short write, not an error), advances the position by it; the new state is `Step(old state, WriteOp(buf))`; an inner error changes nothing |
| StreamSlices.StreamSlice.Flush | src/stream_slice.rs:58-60 | succeeds exactly when the wrapped stream's flush succeeds, and changes nothing in the slice |
| StreamSlices.StreamSlice.Seek | src/stream_slice.rs:64-78 | a target outside `[0, size]` is refused with InvalidInput and nothing moves; otherwise the wrapped stream is moved to `start + target` first, and only if that succeeds the position becomes the target, which is returned; an inner failure is passed on as the device's own error and leaves position and stream where they were |
| StreamSlices.StreamSlice.ReadToEnd | src/stream_slice.rs:90-92 | reading until a read returns 0 yields exactly `Rest` of the state it started in, and the position advances by its length; an inner error is passed on |
| StreamSlices.StreamSlice.WriteAll | src/stream_slice.rs:99-101 | succeeds exactly when the whole buffer fits (window and device), and then leaves the state of one write of all of it; otherwise it writes what fits and fails with WriteZero, or with the inner error without changing anything |
| SliceSpec.Transfer | src/stream_slice.rs:43-44 | the count is at most what is left of the window and at most the request; a non-zero count lies inside the device; it is the clamped request unless the device ends first |
| SliceSpec.ResolveSeek | src/stream_slice.rs:65-71 | refused with InvalidInput exactly when the target is below 0 or above `size`; an accepted target is the one the origin asks for (`SeekTarget`: `x` from Start, `current + x` from Current, `size + x` from End) and is at most `size` |
| SliceSpec.Step | src/stream_slice.rs:42-78 | no operation changes the device's length or moves the position past `size` |
| SliceSpec.Run | src/stream_slice.rs:42-78 | any sequence of operations keeps the device's length and the position within `[0, size]` |
| SliceSpec.Rest | src/stream_slice.rs:90-92 | what is left to read is at most `size - current` bytes, and is the device's bytes from the absolute position to the window's end when the device covers the window |
| SliceSpec.RestFront | src/stream_slice.rs:43-44 | the next `n` bytes to read are the device's `n` bytes at the absolute position |
| SliceSpec.ReadConsumesRest | src/stream_slice.rs:42-46 | a read takes the front of what is left, and what is left afterwards is the remainder; a read of a non-empty buffer that moves nothing means nothing is left |
| SliceSpec.ReadToEndStep | src/stream_slice.rs:90-92 | reading chunk by chunk keeps "taken so far ++ still left" equal to what was left at the outset, and an empty read of a non-empty buffer ends with all of it |
| SliceSpec.StepConfinedToWindow | src/stream_slice.rs:51-55 | one operation leaves every device byte outside the window unchanged |
| SliceSpec.RunConfinedToWindow | src/stream_slice.rs:42-78 | any sequence of operations leaves every device byte outside the window unchanged |
| SliceSpec.OverwriteAdjacent | src/stream_slice.rs:53 | two writes at adjacent places are one write of both |
| SliceSpec.TransferComposes | src/stream_slice.rs:52-54 | after a first request went through in full, the counts of two requests add up to the count of one request of both lengths |
| SliceSpec.WritesCompose | src/stream_slice.rs:51-55 | writing `a` in full and then `b` leaves the same state and moves as many bytes as one write of `a + b` |
| SliceSpec.WriteCutAfterFit | src/stream_slice.rs:52-53 | cutting the bytes to write anywhere past the part that fits changes neither the count nor the resulting state |
| SliceSpec.WriteRemainder | src/stream_slice.rs:100 | once the first `k` bytes are written, writing the rest completes the write of the whole buffer, and the count so far plus the new count is what one write of the whole moves |
| SliceSpec.WriteThenReadBack | src/stream_slice.rs:99-105 | bytes written where window and device have room advance the position by their length and are found at that absolute position afterwards; a read of as many bytes from the old position moves all of them and returns exactly the bytes written |
| SliceSpec.WriteAtWindowEnd | src/stream_slice.rs:52-55 | once the position is at the window's end a write moves nothing and changes nothing, so a further `write_all` of a non-empty buffer fails |
| SliceSpec.WriteTruncatedAtWindowEnd | src/stream_slice.rs:52-55 | a write overrunning the window reports `size - current` and leaves the position at `size` |
| SliceSpec.SeekOriginsAgree | src/stream_slice.rs:65-69 | every position of the window is reached from each of the three origins |
| SeekAsWritten.AsI64 | src/stream_slice.rs:66-68 | `u64 as i64` is the value or the value minus 2^64, and is non-negative exactly below 2^63 |
| SeekAsWritten.WrappingAdd | src/stream_slice.rs:66-68 | the `i64` sum is exact when in range and otherwise off by exactly 2^64 |
| SeekAsWritten.ResolveSeekAsWritten | src/stream_slice.rs:65-71 | with the target computed as written (`SeekTargetAsWritten`: the operands cast to `i64` and added with wrap-around), a seek accepted by the as-written check lies within `[0, size]`, a refused one is InvalidInput |
| SeekAsWritten.AgreesBelowHalfRange | src/stream_slice.rs:65-71 | for windows under 2^63 bytes the as-written check accepts and refuses exactly what `ResolveSeek` does, with the same target |
| SeekAsWritten.RefusesEndOfLargeWindow | src/stream_slice.rs:68-71 | for windows of 2^63 bytes or more, seeking to the end is refused as written although it lies in the window |
| Cursors.Overwrite | src/stream_slice.rs:53 | an in-memory write keeps the data's length |
| Cursors.OverwriteSplices | src/stream_slice.rs:53 | an in-memory write of `src` at `at` is the splice of the bytes before `at`, `src`, and the bytes after the written range |
| Cursors.Cursor.constructor | src/stream_slice.rs:87 | a new cursor is at position 0 over the given bytes |
| Cursors.Cursor.Seek | src/stream_slice.rs:22 | a healthy cursor moves to any position; a failing one reports an error and stays put |
| Cursors.Cursor.Read | src/stream_slice.rs:44 | copies the bytes from the position up to the request or the data's end into the buffer's front and advances by that many |
| Cursors.Cursor.Write | src/stream_slice.rs:53 | overwrites the data from the position with as much of the source as fits and advances by that many |
| Cursors.Cursor.Flush | src/stream_slice.rs:59 | succeeds exactly when the cursor is not failing |
| Io.Min | src/stream_slice.rs:43 | the minimum is at most either operand and is one of them |
| Scenario.TestWindow | src/stream_slice.rs:86-97 | the window [6, 15) of the test's data holds "Test data", and from position 5 on "data" |
| Scenario.RewrittenWindow | src/stream_slice.rs:99-105 | with "Rust" written over bytes 11 to 14 the window holds "Test Rust" |
| Scenario.ItWorks | src/stream_slice.rs:85-106 | the test's four outcomes: "Test data", "data", one more byte after "Rust" refused, then "Test Rust" |
| Scenario.RewriteWindow | src/stream_slice.rs:99-105 | the second half of the test: after "Rust" is written at position 5 one more byte is refused, and a read from 0 returns the rewritten window |
| Scenario.FailingDevice | src/stream_slice.rs:70-74 | on a failing device a seek outside the window is still refused with InvalidInput by the slice itself, while a seek inside it and a write return the device's own error, and a flush fails |

## Left out

- The wrapped stream is fixed to one in-memory cursor over a fixed-length byte array; the slice is generic over any `Read`/`Write`/`Seek` stream, and other streams' behaviour (partial seeks, errors on particular calls) is covered only by the cursor's all-or-nothing `failing` flag.
- Scenario.ItWorks: the test's `Cursor<Vec<u8>>` grows on writes past its end; the model's cursor has a fixed length. The test never writes past the end of its data.
- StreamSlices.StreamSlice.ReadToEnd: `read_to_string`'s UTF-8 validation is not modelled (bytes are returned as bytes), nor the retry on `Interrupted`, nor the standard library's buffer growth strategy (a fixed 32-byte chunk is read each time).
- StreamSlices.StreamSlice.WriteAll: the retry of `write_all` on `Interrupted` is not modelled; the cursor never reports it.
- StreamSlices.StreamSlice.New: the `debug_assert!` that `end_offset >= start_offset` is a precondition; a release build with `end < start` would underflow `end_offset - start_offset` and panic or wrap, which is not modelled.
- The `as usize` casts of `size - current_offset` are identity casts on 64-bit targets; truncation on 32-bit targets is not modelled.
- StreamSlices.StreamSlice.Seek and SliceSpec.ResolveSeek compute the target with mathematical integers, the evidently intended behaviour; the source's `i64` arithmetic is modelled separately in `SeekAsWritten` with release-build wrap-around. The panic a debug build raises on `i64` overflow in `current_offset as i64 + x` (line 66) and in `size as i64 + x` (line 68, e.g. a size of 2^63 - 1 with `End(1)`) is not modelled.
- Error messages ("invalid seek") are not modelled; errors carry only their kind.
- `#[derive(Clone)]` and Rust's move semantics are not modelled beyond `IntoInner` returning the same stream object.

## Findings

| source | as written | input that shows it | evidently intended | confidence | as-written member | corrected member |
|---|---|---|---|---|---|---|
| src/stream_slice.rs:66-70 | the target is computed after `self.size as i64` and `self.current_offset as i64`, which turn values of 2^63 or more negative | a slice with `start_offset = 0`, `end_offset = 2^63`; `seek(SeekFrom::End(0))` is refused with InvalidInput | every target in `[0, size]` is accepted, including `size` itself | medium, not executed (windows that large are rare) | SeekAsWritten.RefusesEndOfLargeWindow | SliceSpec.ResolveSeek |
