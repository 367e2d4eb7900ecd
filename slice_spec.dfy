/** The behaviour of a stream slice as functions on values. A slice over the
    window [start, start + size) of a device is described by the device's
    bytes and the slice's logical position; each operation is a step from one
    such state to the next. The methods of `StreamSlices.StreamSlice` are
    proved to take exactly these steps, and the lemmas below say what any
    run of steps does and does not do. */
module SliceSpec {
  import opened Io
  import opened Cursors

  /** The device's bytes and the slice's logical position. */
  datatype State = State(device: seq<uint8>, cur: nat)

  /** One call on a slice: `seek`, a `read` into a buffer of `len` bytes, or a
      `write` of `bytes`. */
  datatype Op = SeekOp(pos: SeekFrom) | ReadOp(len: nat) | WriteOp(bytes: seq<uint8>)

  /** Bytes a read or write of `len` bytes moves: the request clamped to what
      is left of the window, then to what the device holds past the absolute
      position. */
  function Transfer(start: nat, size: nat, s: State, len: nat): (n: nat)
    requires s.cur <= size
    ensures n <= size - s.cur && n <= len
    ensures n == 0 || start + s.cur + n <= |s.device|
    ensures n == Min(size - s.cur, len) || |s.device| <= start + s.cur + n
  {
    Min(Min(size - s.cur, len), Room(|s.device|, start + s.cur))
  }

  /** The logical position a seek asks for, before validation. */
  function SeekTarget(pos: SeekFrom, cur: nat, size: nat): int
  {
    match pos
    case Start(x) => x
    case Current(x) => cur + x
    case End(x) => size + x
  }

  /** The validated seek target: positions from 0 to `size` inclusive are
      accepted, anything else is an invalid-input error. */
  function ResolveSeek(pos: SeekFrom, cur: nat, size: nat): (r: Result<nat>)
    ensures r.Err? <==> SeekTarget(pos, cur, size) < 0 || size < SeekTarget(pos, cur, size)
    ensures r.Ok? ==> r.value <= size && r.value == SeekTarget(pos, cur, size)
    ensures r.Err? ==> r.error == Error(InvalidInput)
  {
    var target := SeekTarget(pos, cur, size);
    if target < 0 || target > size then Err(Error(InvalidInput)) else Ok(target)
  }

  /** The state after one operation that the device carries out. */
  function Step(start: nat, size: nat, s: State, op: Op): (t: State)
    requires s.cur <= size
    ensures |t.device| == |s.device| && t.cur <= size
  {
    match op
    case SeekOp(pos) =>
      (match ResolveSeek(pos, s.cur, size)
       case Ok(target) => State(s.device, target)
       case Err(_) => s)
    case ReadOp(len) =>
      State(s.device, s.cur + Transfer(start, size, s, len))
    case WriteOp(bytes) =>
      var n := Transfer(start, size, s, |bytes|);
      State(Overwrite(s.device, Min(start + s.cur, |s.device|), bytes[..n]), s.cur + n)
  }

  /** The state after a sequence of operations. */
  function Run(start: nat, size: nat, s: State, ops: seq<Op>): (t: State)
    requires s.cur <= size
    ensures |t.device| == |s.device| && t.cur <= size
    decreases |ops|
  {
    if ops == [] then s else Run(start, size, Step(start, size, s, ops[0]), ops[1..])
  }

  /** What reading until end of stream yields: the device's bytes from the
      position to the end of the window, as far as the device has them. */
  function Rest(start: nat, size: nat, s: State): (r: seq<uint8>)
    requires s.cur <= size
    ensures |r| <= size - s.cur
    ensures start + size <= |s.device| ==> r == s.device[start + s.cur..start + size]
  {
    s.device[Min(start + s.cur, |s.device|)..Min(start + size, |s.device|)]
  }

  /** The first `n` bytes still to be read are the device's `n` bytes at
      the absolute position. */
  lemma RestFront(start: nat, size: nat, s: State, n: nat)
    requires s.cur <= size && n <= |Rest(start, size, s)|
    ensures var from := Min(start + s.cur, |s.device|);
      from + n <= |s.device| && Rest(start, size, s)[..n] == s.device[from..from + n]
  {
  }

  /** A read takes its bytes from the front of what is left to read, and a
      read of a non-empty buffer that moves nothing means nothing is left. */
  lemma ReadConsumesRest(start: nat, size: nat, s: State, len: nat)
    requires s.cur <= size
    ensures var n := Transfer(start, size, s, len);
      && n <= |Rest(start, size, s)|
      && Rest(start, size, s) == Rest(start, size, s)[..n] + Rest(start, size, Step(start, size, s, ReadOp(len)))
      && (0 < len && n == 0 ==> Rest(start, size, s) == [])
  {
    var n := Transfer(start, size, s, len);
    var from := Min(start + s.cur, |s.device|);
    var to := Min(start + size, |s.device|);
    assert n > 0 ==> from + n <= to && Min(start + s.cur + n, |s.device|) == from + n;
    assert s.device[from..to] == s.device[from..from + n] + s.device[from + n..to];
  }

  /** Reading to the end, one read at a time: if `got` holds what was read
      so far and `chunk` what the next read (of `len` bytes, from state `s`)
      returned, the two together are still a prefix of what was left at the
      outset, and a read that returns nothing ends with all of it. */
  lemma ReadToEndStep(start: nat, size: nat, s0: State, s: State, got: seq<uint8>, len: nat, chunk: seq<uint8>)
    requires s.cur <= size && s0.cur <= size
    requires got + Rest(start, size, s) == Rest(start, size, s0)
    requires chunk == Rest(start, size, s)[..Transfer(start, size, s, len)]
    ensures (got + chunk) + Rest(start, size, Step(start, size, s, ReadOp(len))) == Rest(start, size, s0)
    ensures 0 < len && chunk == [] ==> got == Rest(start, size, s0)
  {
    ReadConsumesRest(start, size, s, len);
    Regroup(got, chunk, Rest(start, size, s), Rest(start, size, Step(start, size, s, ReadOp(len))), Rest(start, size, s0));
  }

  /** Moving a chunk from the front of what is left to the end of what was
      taken keeps the whole unchanged. */
  lemma Regroup<T>(got: seq<T>, chunk: seq<T>, rest: seq<T>, rest1: seq<T>, whole: seq<T>)
    requires got + rest == whole && rest == chunk + rest1
    ensures (got + chunk) + rest1 == whole
  {
    assert (got + chunk) + rest1 == got + (chunk + rest1);
  }

  /** One operation leaves every byte of the device outside the window as it
      was. */
  lemma StepConfinedToWindow(start: nat, size: nat, s: State, op: Op, i: nat)
    requires s.cur <= size
    requires i < |s.device| && (i < start || start + size <= i)
    ensures Step(start, size, s, op).device[i] == s.device[i]
  {
    if op.WriteOp? {
      var n := Transfer(start, size, s, |op.bytes|);
      OverwriteAt(s.device, Min(start + s.cur, |s.device|), op.bytes[..n], i);
    }
  }

  /** However operations are composed, the slice never changes a byte of the
      device outside its window. */
  lemma {:induction false} RunConfinedToWindow(start: nat, size: nat, s: State, ops: seq<Op>, i: nat)
    requires s.cur <= size
    requires i < |s.device| && (i < start || start + size <= i)
    ensures Run(start, size, s, ops).device[i] == s.device[i]
    decreases |ops|
  {
    if ops != [] {
      StepConfinedToWindow(start, size, s, ops[0], i);
      RunConfinedToWindow(start, size, Step(start, size, s, ops[0]), ops[1..], i);
    }
  }

  /** Two writes at adjacent places are one write of both. */
  lemma OverwriteAdjacent(d: seq<uint8>, at: nat, a: seq<uint8>, b: seq<uint8>)
    requires at + |a| + |b| <= |d|
    ensures Overwrite(Overwrite(d, at, a), at + |a|, b) == Overwrite(d, at, a + b)
  {
    var d1 := Overwrite(d, at, a);
    var d2 := Overwrite(d1, at + |a|, b);
    var d3 := Overwrite(d, at, a + b);
    forall i | 0 <= i < |d|
      ensures d2[i] == d3[i]
    {
      OverwriteAt(d, at, a, i);
      OverwriteAt(d1, at + |a|, b, i);
      OverwriteAt(d, at, a + b, i);
    }
  }

  /** After `a` went through in full, what a second request of `len` bytes
      moves adds up with `|a|` to what one request of `|a| + len` moves. */
  lemma TransferComposes(start: nat, size: nat, s: State, a: seq<uint8>, len: nat)
    requires s.cur <= size
    requires Transfer(start, size, s, |a|) == |a|
    ensures Transfer(start, size, s, |a| + len) == |a| + Transfer(start, size, Step(start, size, s, WriteOp(a)), len)
  {
    var s1 := Step(start, size, s, WriteOp(a));
    assert s1.cur == s.cur + |a|;
    assert |a| > 0 ==> start + s.cur + |a| <= |s.device|;
  }

  /** Writing `a` in full and then `b` leaves the same state as one write of
      `a + b`, and moves as many bytes. */
  lemma WritesCompose(start: nat, size: nat, s: State, a: seq<uint8>, b: seq<uint8>)
    requires s.cur <= size
    requires Transfer(start, size, s, |a|) == |a|
    ensures var s1 := Step(start, size, s, WriteOp(a));
      && Transfer(start, size, s, |a| + |b|) == |a| + Transfer(start, size, s1, |b|)
      && Step(start, size, s1, WriteOp(b)) == Step(start, size, s, WriteOp(a + b))
  {
    var s1 := Step(start, size, s, WriteOp(a));
    TransferComposes(start, size, s, a, |b|);
    var n := Transfer(start, size, s1, |b|);
    var at := Min(start + s.cur, |s.device|);
    assert a[..|a|] == a;
    assert s1.device == Overwrite(s.device, at, a);
    assert |a| > 0 ==> at == start + s.cur;
    assert Min(start + s1.cur, |s.device|) == at + |a| || n == 0;
    assert (a + b)[..|a| + n] == a + b[..n];
    if n == 0 {
      assert b[..n] == [];
      assert a + b[..n] == a;
      assert Overwrite(s1.device, Min(start + s1.cur, |s.device|), b[..n]) == s1.device;
    } else {
      OverwriteAdjacent(s.device, at, a, b[..n]);
    }
  }

  /** Only the part of a write that fits counts: cutting the bytes anywhere
      past that part changes nothing. */
  lemma WriteCutAfterFit(start: nat, size: nat, s: State, bytes: seq<uint8>, m: nat)
    requires s.cur <= size
    requires Transfer(start, size, s, |bytes|) <= m <= |bytes|
    ensures Transfer(start, size, s, m) == Transfer(start, size, s, |bytes|)
    ensures Step(start, size, s, WriteOp(bytes[..m])) == Step(start, size, s, WriteOp(bytes))
  {
    var n := Transfer(start, size, s, |bytes|);
    assert Transfer(start, size, s, m) == n;
    assert bytes[..m][..n] == bytes[..n];
  }

  /** What one more write adds once the first `k` bytes of `buf` are in
      (state `s1`): the write of the remainder completes the write of all of
      `buf`. */
  lemma WriteRemainder(start: nat, size: nat, s: State, s1: State, s2: State, buf: seq<uint8>, k: nat, n: nat)
    requires s.cur <= size && k <= |buf|
    requires Transfer(start, size, s, k) == k
    requires s1 == Step(start, size, s, WriteOp(buf[..k]))
    requires n == Transfer(start, size, s1, |buf[k..]|)
    requires s2 == Step(start, size, s1, WriteOp(buf[k..]))
    ensures k + n <= |buf|
    ensures Transfer(start, size, s, |buf|) == k + n
    ensures Transfer(start, size, s, k + n) == k + n
    ensures s2 == Step(start, size, s, WriteOp(buf))
    ensures s2 == Step(start, size, s, WriteOp(buf[..k + n]))
  {
    assert buf[..k] + buf[k..] == buf;
    WritesCompose(start, size, s, buf[..k], buf[k..]);
    WriteCutAfterFit(start, size, s, buf, k + n);
  }

  /** Round trip: bytes written where the window and the device both have
      room are read back unchanged from the same position. */
  lemma WriteThenReadBack(start: nat, size: nat, s: State, bytes: seq<uint8>)
    requires s.cur + |bytes| <= size && start + s.cur + |bytes| <= |s.device|
    ensures var t := Step(start, size, s, WriteOp(bytes));
      && t.cur == s.cur + |bytes|
      && Transfer(start, size, State(t.device, s.cur), |bytes|) == |bytes|
      && t.device[start + s.cur..start + s.cur + |bytes|] == bytes
      && Rest(start, size, State(t.device, s.cur))[..|bytes|] == bytes
  {
    var t := Step(start, size, s, WriteOp(bytes));
    assert bytes[..|bytes|] == bytes;
    forall i | 0 <= i < |bytes|
      ensures t.device[start + s.cur..start + s.cur + |bytes|][i] == bytes[i]
    {
      OverwriteAt(s.device, start + s.cur, bytes, start + s.cur + i);
    }
    RestFront(start, size, State(t.device, s.cur), |bytes|);
  }

  /** A write that overruns the window is cut at the window's end and reports
      the shorter count. */
  lemma WriteTruncatedAtWindowEnd(start: nat, size: nat, s: State, bytes: seq<uint8>)
    requires s.cur <= size < s.cur + |bytes| && start + size <= |s.device|
    ensures Transfer(start, size, s, |bytes|) == size - s.cur
    ensures Step(start, size, s, WriteOp(bytes)).cur == size
  {
  }

  /** Once the window is full, a write moves nothing and changes nothing,
      so writing all of a non-empty buffer cannot succeed. */
  lemma WriteAtWindowEnd(start: nat, size: nat, s: State, bytes: seq<uint8>)
    requires s.cur == size
    ensures Transfer(start, size, s, |bytes|) == 0
    ensures Step(start, size, s, WriteOp(bytes)) == s
  {
    var at := Min(start + s.cur, |s.device|);
    OverwriteSplices(s.device, at, bytes[..0]);
    assert s.device[..at] + bytes[..0] + s.device[at..] == s.device;
  }

  /** Every position of the window is reachable from each of the three
      origins. */
  lemma SeekOriginsAgree(t: uint64, cur: nat, size: nat)
    requires t <= size < I64_LIMIT && cur <= size
    ensures ResolveSeek(Start(t), cur, size) == Ok(t)
    ensures ResolveSeek(Current(t - cur), cur, size) == Ok(t)
    ensures ResolveSeek(End(t - size), cur, size) == Ok(t)
  {
  }
}
