/** A stream restricted to the window [start_offset, end_offset) of the
    stream it wraps, with its own positions counted from 0. */
module StreamSlices {
  import opened Io
  import opened Cursors
  import opened SliceSpec

  class StreamSlice {
    const inner: Cursor
    const startOffset: uint64
    const size: uint64
    var currentOffset: uint64

    /** The position stays inside the window, and the inner stream sits at
        the absolute position that corresponds to it. */
    ghost predicate Valid()
      reads this, inner
    {
      && inner.Valid()
      && startOffset + size < U64_LIMIT
      && currentOffset <= size
      && inner.pos == startOffset + currentOffset
    }

    /** The device's bytes and the logical position. */
    ghost function Current(): State
      reads this, inner, inner.data
    {
      State(inner.data[..], currentOffset)
    }

    /** The struct itself, built once the inner stream is in place. */
    constructor (inner: Cursor, startOffset: uint64, size: uint64)
      requires startOffset + size < U64_LIMIT
      ensures this.inner == inner && this.startOffset == startOffset && this.size == size
      ensures currentOffset == 0
    {
      this.inner := inner;
      this.startOffset := startOffset;
      this.size := size;
      currentOffset := 0;
    }

    /** Wraps `inner`, exposing its bytes from `startOffset` up to but not
        including `endOffset`, after seeking it to `startOffset`. A failure
        of that seek is passed on and no slice is made. */
    static method New(inner: Cursor, startOffset: uint64, endOffset: uint64) returns (r: Result<StreamSlice>)
      requires inner.Valid()
      requires startOffset <= endOffset
      modifies inner`pos
      ensures r.Ok? <==> !inner.failing
      ensures r.Ok? ==> fresh(r.value) && r.value.Valid()
      ensures r.Ok? ==> r.value.inner == inner && inner.pos == startOffset
      ensures r.Ok? ==> r.value.startOffset == startOffset && r.value.size == endOffset - startOffset
      ensures r.Ok? ==> r.value.currentOffset == 0
      ensures r.Err? ==> r.error == Error(Other) && inner.pos == old(inner.pos)
    {
      var sought := inner.Seek(startOffset);
      if sought.Err? {
        return Err(sought.error);
      }
      var slice := new StreamSlice(inner, startOffset, endOffset - startOffset);
      return Ok(slice);
    }

    /** Gives back the wrapped stream, left at the slice's absolute
        position. */
    method IntoInner() returns (stream: Cursor)
      requires Valid()
      ensures stream == inner && stream.pos == startOffset + currentOffset
    {
      return inner;
    }

    /** Reads into the front of `buf` at most what is left of the window. */
    method Read(buf: array<uint8>) returns (r: Result<nat>)
      requires Valid() && buf != inner.data
      modifies this`currentOffset, inner`pos, buf
      ensures Valid()
      ensures r.Ok? <==> !inner.failing
      ensures r.Ok? ==> r.value <= size - old(currentOffset) && r.value <= buf.Length
      ensures r.Ok? ==> r.value == Transfer(startOffset, size, old(Current()), buf.Length)
      ensures r.Ok? ==> Current() == Step(startOffset, size, old(Current()), ReadOp(buf.Length))
      ensures r.Ok? ==> buf[..r.value] == Rest(startOffset, size, old(Current()))[..r.value]
      ensures r.Ok? ==> buf[r.value..] == old(buf[r.value..])
      ensures r.Err? ==> r.error == Error(Other) && Current() == old(Current()) && buf[..] == old(buf[..])
    {
      ghost var s := Current();
      var maxReadSize := Min(size - currentOffset, buf.Length);
      var read := inner.Read(buf, maxReadSize);
      if read.Err? {
        return Err(read.error);
      }
      assert read.value == Transfer(startOffset, size, s, buf.Length);
      assert buf[..read.value] == Rest(startOffset, size, s)[..read.value] by {
        RestFront(startOffset, size, s, read.value);
      }
      currentOffset := currentOffset + read.value;
      return Ok(read.value);
    }

    /** Writes the front of `buf`, at most what is left of the window, and
        reports how much was written; running out of window is a short
        write, not an error. */
    method Write(buf: seq<uint8>) returns (r: Result<nat>)
      requires Valid()
      modifies this`currentOffset, inner`pos, inner.data
      ensures Valid()
      ensures r.Ok? <==> !inner.failing
      ensures r.Ok? ==> r.value <= size - old(currentOffset) && r.value <= |buf|
      ensures r.Ok? ==> r.value == Transfer(startOffset, size, old(Current()), |buf|)
      ensures r.Ok? ==> Current() == Step(startOffset, size, old(Current()), WriteOp(buf))
      ensures r.Err? ==> r.error == Error(Other) && Current() == old(Current())
    {
      ghost var s := Current();
      var maxWriteSize := Min(size - currentOffset, |buf|);
      var written := inner.Write(buf[..maxWriteSize]);
      if written.Err? {
        return Err(written.error);
      }
      assert written.value == Transfer(startOffset, size, s, |buf|);
      assert buf[..maxWriteSize][..written.value] == buf[..written.value];
      currentOffset := currentOffset + written.value;
      return Ok(written.value);
    }

    /** Passes the flush on to the wrapped stream. */
    method Flush() returns (r: Result<()>)
      requires Valid()
      ensures r.Ok? <==> !inner.failing
    {
      r := inner.Flush();
    }

    /** Moves to a position computed from the start, the current position
        or the end of the window. A target outside [0, size] is refused
        with an invalid-input error; otherwise the wrapped stream is moved
        first, and the position changes only if that succeeds. */
    method Seek(pos: SeekFrom) returns (r: Result<uint64>)
      requires Valid()
      modifies this`currentOffset, inner`pos
      ensures Valid()
      ensures ResolveSeek(pos, old(currentOffset), size).Err? ==> r == Err(Error(InvalidInput))
      ensures ResolveSeek(pos, old(currentOffset), size).Ok? ==> (r.Ok? <==> !inner.failing)
      ensures ResolveSeek(pos, old(currentOffset), size).Ok? && r.Err? ==> r.error == Error(Other)
      ensures r.Ok? ==> r.value == currentOffset == ResolveSeek(pos, old(currentOffset), size).value
      ensures r.Ok? ==> Current() == Step(startOffset, size, old(Current()), SeekOp(pos))
      ensures r.Err? ==> currentOffset == old(currentOffset) && inner.pos == old(inner.pos)
    {
      var target := ResolveSeek(pos, currentOffset, size);
      if target.Err? {
        return Err(target.error);
      }
      var sought := inner.Seek(startOffset + target.value);
      if sought.Err? {
        return Err(sought.error);
      }
      currentOffset := target.value;
      return Ok(currentOffset);
    }

    /** Reads until a read returns 0, as `Read::read_to_end` does, and
        returns what it read. */
    method ReadToEnd() returns (r: Result<seq<uint8>>)
      requires Valid()
      modifies this`currentOffset, inner`pos
      ensures Valid()
      ensures r.Ok? <==> !inner.failing
      ensures r.Ok? ==> r.value == Rest(startOffset, size, old(Current()))
      ensures r.Ok? ==> currentOffset == old(currentOffset) + |r.value|
      ensures r.Err? ==> r.error == Error(Other) && currentOffset == old(currentOffset)
    {
      ghost var s0 := Current();
      var chunk := new uint8[32];
      var data: seq<uint8> := [];
      while true
        invariant Valid() && inner.data[..] == s0.device
        invariant inner.failing ==> currentOffset == s0.cur
        invariant currentOffset == s0.cur + |data|
        invariant data + Rest(startOffset, size, Current()) == Rest(startOffset, size, s0)
        decreases size - currentOffset
      {
        ghost var before := Current();
        var read := Read(chunk);
        if read.Err? {
          return Err(read.error);
        }
        ReadToEndStep(startOffset, size, s0, before, data, chunk.Length, chunk[..read.value]);
        if read.value == 0 {
          return Ok(data);
        }
        data := data + chunk[..read.value];
      }
    }

    /** Writes all of `buf`, as `Write::write_all` does: a write that
        reports 0 bytes ends it with a write-zero error, after the part of
        `buf` that fitted has been written. */
    method WriteAll(buf: seq<uint8>) returns (r: Result<()>)
      requires Valid()
      modifies this`currentOffset, inner`pos, inner.data
      ensures Valid()
      ensures r.Ok? <==> |buf| == 0 || (!inner.failing && Transfer(startOffset, size, old(Current()), |buf|) == |buf|)
      ensures !inner.failing ==> Current() == Step(startOffset, size, old(Current()), WriteOp(buf))
      ensures inner.failing ==> Current() == old(Current())
      ensures r.Err? && inner.failing ==> r.error == Error(Other)
      ensures r.Err? && !inner.failing ==> r.error == Error(WriteZero)
    {
      ghost var s0 := Current();
      var done := 0;
      while done < |buf|
        invariant Valid()
        invariant done <= |buf|
        invariant inner.failing ==> done == 0 && Current() == s0
        invariant Transfer(startOffset, size, s0, done) == done
        invariant Current() == Step(startOffset, size, s0, WriteOp(buf[..done]))
        decreases |buf| - done
      {
        ghost var s1 := Current();
        var written := Write(buf[done..]);
        if written.Err? {
          return Err(written.error);
        }
        WriteRemainder(startOffset, size, s0, s1, Current(), buf, done, written.value);
        if written.value == 0 {
          return Err(Error(WriteZero));
        }
        done := done + written.value;
      }
      assert buf[..|buf|] == buf;
      return Ok(());
    }
  }
}
