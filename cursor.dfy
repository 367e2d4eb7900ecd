/** The stream a slice wraps: an in-memory, seekable, readable and writable
    cursor over a fixed-length byte buffer, in the manner of Rust's
    `io::Cursor` over a byte slice. Its position may lie past the end of the
    buffer; reads and writes there transfer nothing. A `failing` switch
    stands for a device that has gone bad: while it is set every operation
    reports an error and changes nothing. */
module Cursors {
  import opened Io

  /** Bytes left in a buffer of `len` bytes from position `pos` on. */
  function Room(len: nat, pos: nat): (n: nat)
    ensures pos <= len ==> pos + n == len
    ensures len <= pos ==> n == 0
  {
    if pos <= len then len - pos else 0
  }

  /** `data` with the bytes from `at` on replaced by `src`. */
  function Overwrite(data: seq<uint8>, at: nat, src: seq<uint8>): (r: seq<uint8>)
    requires at + |src| <= |data|
    ensures |r| == |data|
  {
    seq(|data|, i requires 0 <= i < |data| => if at <= i < at + |src| then src[i - at] else data[i])
  }

  /** Each byte of an overwritten buffer comes from `src` inside the
      overwritten range and from the old buffer outside it. */
  lemma OverwriteAt(data: seq<uint8>, at: nat, src: seq<uint8>, i: nat)
    requires at + |src| <= |data| && i < |data|
    ensures Overwrite(data, at, src)[i] == if at <= i < at + |src| then src[i - at] else data[i]
  {
  }

  /** An overwrite is a splice: the bytes before `at`, then `src`, then the
      bytes after the overwritten range. */
  lemma OverwriteSplices(data: seq<uint8>, at: nat, src: seq<uint8>)
    requires at + |src| <= |data|
    ensures Overwrite(data, at, src) == data[..at] + src + data[at + |src|..]
  {
    var spliced := data[..at] + src + data[at + |src|..];
    forall i | 0 <= i < |data|
      ensures Overwrite(data, at, src)[i] == spliced[i]
    {
      OverwriteAt(data, at, src, i);
    }
  }

  class Cursor {
    const data: array<uint8>
    var pos: uint64
    var failing: bool

    /** Every position inside the buffer is a `u64`. */
    ghost predicate Valid()
    {
      data.Length < U64_LIMIT
    }

    constructor (data: array<uint8>)
      requires data.Length < U64_LIMIT
      ensures Valid() && this.data == data && pos == 0 && !failing
    {
      this.data := data;
      pos := 0;
      failing := false;
    }

    /** Makes the device fail (or recover). */
    method SetFailing(f: bool)
      modifies this`failing
      ensures failing == f
    {
      failing := f;
    }

    /** Bytes a read could still deliver from the current position. */
    function Available(): (n: nat)
      reads this
      ensures n <= data.Length
    {
      Room(data.Length, pos)
    }

    /** Seeks to an absolute position, which may lie past the end. */
    method Seek(target: uint64) returns (r: Result<uint64>)
      modifies this`pos
      ensures r.Ok? <==> !failing
      ensures r.Ok? ==> r.value == target && pos == target
      ensures r.Err? ==> r.error == Error(Other) && pos == old(pos)
    {
      if failing {
        return Err(Error(Other));
      }
      pos := target;
      return Ok(target);
    }

    /** Reads into `buf[..len]` as many bytes as are left, up to `len`. */
    method Read(buf: array<uint8>, len: nat) returns (r: Result<nat>)
      requires Valid() && len <= buf.Length && buf != data
      modifies this`pos, buf
      ensures r.Ok? <==> !failing
      ensures r.Ok? ==> r.value == Min(len, old(Available()))
      ensures r.Ok? ==> pos == old(pos) + r.value
      ensures r.Ok? ==> buf[..r.value] == data[Min(old(pos), data.Length)..Min(old(pos), data.Length) + r.value]
      ensures r.Ok? ==> buf[r.value..] == old(buf[r.value..])
      ensures r.Err? ==> r.error == Error(Other) && pos == old(pos) && buf[..] == old(buf[..])
    {
      if failing {
        return Err(Error(Other));
      }
      var at := Min(pos, data.Length);
      var n := Min(len, Available());
      var i := 0;
      while i < n
        modifies buf
        invariant 0 <= i <= n
        invariant buf[..i] == data[at..at + i]
        invariant buf[i..] == old(buf[i..])
      {
        buf[i] := data[at + i];
        i := i + 1;
      }
      pos := pos + n;
      return Ok(n);
    }

    /** Writes as much of `src` as fits between the position and the end of
        the buffer, overwriting what was there. */
    method Write(src: seq<uint8>) returns (r: Result<nat>)
      requires Valid()
      modifies this`pos, data
      ensures r.Ok? <==> !failing
      ensures r.Ok? ==> r.value == Min(|src|, old(Available()))
      ensures r.Ok? ==> pos == old(pos) + r.value
      ensures r.Ok? ==> data[..] == Overwrite(old(data[..]), Min(old(pos), data.Length), src[..r.value])
      ensures r.Err? ==> r.error == Error(Other) && pos == old(pos) && data[..] == old(data[..])
    {
      if failing {
        return Err(Error(Other));
      }
      var at := Min(pos, data.Length);
      var n := Min(|src|, Available());
      var i := 0;
      while i < n
        modifies data
        invariant 0 <= i <= n
        invariant forall j :: 0 <= j < data.Length ==> data[j] == if at <= j < at + i then src[j - at] else old(data[j])
      {
        data[at + i] := src[i];
        i := i + 1;
      }
      forall j | 0 <= j < data.Length
        ensures data[..][j] == Overwrite(old(data[..]), at, src[..n])[j]
      {
        OverwriteAt(old(data[..]), at, src[..n], j);
      }
      pos := pos + n;
      return Ok(n);
    }

    /** Nothing is buffered, so flushing only reports the device's health. */
    method Flush() returns (r: Result<()>)
      ensures r.Ok? <==> !failing
    {
      if failing {
        return Err(Error(Other));
      }
      return Ok(());
    }
  }
}
