/** The repository's own test: a nine-byte slice over the middle of
    "BeforeTest dataAfter". */
module Scenario {
  import opened Io
  import opened Cursors
  import opened SliceSpec
  import opened StreamSlices

  /** The bytes of an ASCII string. */
  function Ascii(s: string): (b: seq<uint8>)
    requires forall i :: 0 <= i < |s| ==> s[i] as int < 0x80
    ensures |b| == |s|
    ensures forall i :: 0 <= i < |b| ==> b[i] == s[i] as int
  {
    seq(|s|, i requires 0 <= i < |s| => s[i] as int)
  }

  /** The test's strings as bytes. */
  lemma TestStrings()
    ensures Ascii("BeforeTest dataAfter") == [66, 101, 102, 111, 114, 101, 84, 101, 115, 116, 32, 100, 97, 116, 97, 65, 102, 116, 101, 114]
    ensures Ascii("Test data") == [84, 101, 115, 116, 32, 100, 97, 116, 97]
    ensures Ascii("data") == [100, 97, 116, 97]
    ensures Ascii("Rust") == [82, 117, 115, 116]
    ensures Ascii("Test Rust") == [84, 101, 115, 116, 32, 82, 117, 115, 116]
    ensures Ascii("X") == [88]
  {
  }

  /** The window of the test's data, from position 0 and from position 5. */
  lemma TestWindow(bytes: seq<uint8>)
    requires bytes == [66, 101, 102, 111, 114, 101, 84, 101, 115, 116, 32, 100, 97, 116, 97, 65, 102, 116, 101, 114]
    ensures bytes[6..15] == [84, 101, 115, 116, 32, 100, 97, 116, 97]
    ensures bytes[11..15] == [100, 97, 116, 97]
  {
  }

  /** The same window after "Rust" is written over its last four bytes. */
  lemma RewrittenWindow(bytes: seq<uint8>, rust: seq<uint8>)
    requires bytes == [66, 101, 102, 111, 114, 101, 84, 101, 115, 116, 32, 100, 97, 116, 97, 65, 102, 116, 101, 114]
    requires rust == [82, 117, 115, 116]
    ensures Overwrite(bytes, 11, rust)[6..15] == [84, 101, 115, 116, 32, 82, 117, 115, 116]
  {
    OverwriteSplices(bytes, 11, rust);
    assert bytes[..11] == [66, 101, 102, 111, 114, 101, 84, 101, 115, 116, 32];
    assert bytes[15..] == [65, 102, 116, 101, 114];
    assert Overwrite(bytes, 11, rust)
        == [66, 101, 102, 111, 114, 101, 84, 101, 115, 116, 32, 82, 117, 115, 116, 65, 102, 116, 101, 114];
  }

  /** Reading the whole slice gives "Test data"; reading from position 5
      gives "data"; "Rust" written at position 5 fills the window, so one
      more byte cannot be written; reading from position 0 then gives
      "Test Rust". Every `unwrap` of the test is proved to meet an `Ok`. */
  method ItWorks() returns (whole: seq<uint8>, tail: seq<uint8>, overrunRefused: bool, rewritten: seq<uint8>)
    ensures whole == Ascii("Test data")
    ensures tail == Ascii("data")
    ensures overrunRefused
    ensures rewritten == Ascii("Test Rust")
  {
    TestStrings();
    var bytes: seq<uint8> := [66, 101, 102, 111, 114, 101, 84, 101, 115, 116, 32, 100, 97, 116, 97, 65, 102, 116, 101, 114];
    var rust: seq<uint8> := [82, 117, 115, 116];
    TestWindow(bytes);
    RewrittenWindow(bytes, rust);
    var data := new uint8[|bytes|](i requires 0 <= i < |bytes| => bytes[i]);
    assert data[..] == bytes;
    var cursor := new Cursor(data);
    var created := StreamSlice.New(cursor, 6, 6 + 9);
    var stream := created.value;
    assert stream.Current() == State(bytes, 0);

    var read := stream.ReadToEnd();
    whole := read.value;
    assert whole == bytes[6..15];

    var sought := stream.Seek(Start(5));
    assert sought.Ok? && stream.Current() == State(bytes, 5);
    read := stream.ReadToEnd();
    tail := read.value;
    assert tail == bytes[11..15];

    overrunRefused, rewritten := RewriteWindow(stream, bytes, rust);
  }

  /** The second half of the test, on a slice over bytes 6 to 14 of
      `bytes`: `rust` written from position 5 fills the window, so one more
      byte is refused, and reading from position 0 shows the rewritten
      window. */
  method RewriteWindow(stream: StreamSlice, bytes: seq<uint8>, rust: seq<uint8>) returns (overrunRefused: bool, rewritten: seq<uint8>)
    requires stream.Valid() && !stream.inner.failing
    requires stream.startOffset == 6 && stream.size == 9
    requires stream.inner.data[..] == bytes && |bytes| == 20 && |rust| == 4
    modifies stream, stream.inner, stream.inner.data
    ensures overrunRefused
    ensures rewritten == Overwrite(bytes, 11, rust)[6..15]
  {
    var sought := stream.Seek(Start(5));
    assert sought.Ok? && stream.Current() == State(bytes, 5);
    var wrote := stream.WriteAll(rust);
    assert Transfer(6, 9, State(bytes, 5), 4) == 4;
    assert rust[..4] == rust;
    ghost var after := Overwrite(bytes, 11, rust);
    assert stream.Current() == State(after, 9);
    assert wrote.Ok?;
    WriteAtWindowEnd(6, 9, State(after, 9), [88]);
    wrote := stream.WriteAll([88]);
    overrunRefused := wrote.Err?;

    sought := stream.Seek(Start(0));
    assert sought.Ok? && stream.Current() == State(after, 0);
    var read := stream.ReadToEnd();
    rewritten := read.value;
    assert rewritten == after[6..15];
  }

  /** A slice over bytes 1 and 2 of a device that then fails: a seek
      outside the window is refused by the slice itself before the device
      is asked, while a seek inside it, a write and a flush report the
      device's own error. */
  method FailingDevice() returns (outside: Result<uint64>, inside: Result<uint64>, wrote: Result<nat>, flushed: Result<()>)
    ensures outside == Err(Error(InvalidInput))
    ensures inside == Err(Error(Other))
    ensures wrote == Err(Error(Other))
    ensures flushed.Err?
  {
    var data := new uint8[4];
    var cursor := new Cursor(data);
    var created := StreamSlice.New(cursor, 1, 3);
    var stream := created.value;
    cursor.SetFailing(true);
    outside := stream.Seek(Start(3));
    inside := stream.Seek(Start(1));
    wrote := stream.Write([1]);
    flushed := stream.Flush();
  }
}
