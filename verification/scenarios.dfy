/** The scenarios of SharedMemoryFileTests.cs and SharedMemoryStreamTests.cs,
    each stated for every store in which the names it uses are free. The
    interprocess scenario runs as sequential calls on the one store. */
module Scenarios {
  import opened Bytes
  import opened Results
  import SMF = SharedMemoryFile
  import SMFFacts = SharedMemoryFileFacts
  import opened SharedMemoryStream
  import StreamFacts = SharedMemoryStreamFacts

  // ---------------------------------------------------------------------
  // SharedMemoryFile
  // ---------------------------------------------------------------------

  /** Six bytes written into a five-byte file come back as their first five. */
  lemma FileTruncatesLongWrite(store: SMF.Store)
    requires "file1" !in store
    ensures
      var (st, creator) := SMF.CreateOrOpen(store, "file1", 5);
      var w := SMF.WriteAt(st, creator, 0, [1, 2, 3, 4, 5, 6], 0, 6);
      && w.Ok?
      && var reader := SMF.Open(w.value.0, "file1");
      && reader.Ok?
      && SMF.ReadInto(w.value.0, reader.value, Zeros(5)) == Ok([1, 2, 3, 4, 5])
  {
    var (st, creator) := SMF.CreateOrOpen(store, "file1", 5);
    SMFFacts.WriteKeepsAtMostSizeBytes(st, creator, [1, 2, 3, 4, 5, 6]);
    var w := SMF.WriteAt(st, creator, 0, [1, 2, 3, 4, 5, 6], 0, 6);
    var reader := SMF.Open(w.value.0, "file1").value;
    assert reader == creator;
    var data: seq<byte> := [1, 2, 3, 4, 5, 6];
    assert data[..5] == [1, 2, 3, 4, 5];
    assert w.value.0["file1"].data == [1, 2, 3, 4, 5];
  }

  /** A second CreateOrOpen with a larger size opens the two-byte file the
      first one made, and reads back what was written through the first. */
  lemma FileOpensExistingOnCreate(store: SMF.Store)
    requires "file2" !in store
    ensures
      var (st, creator) := SMF.CreateOrOpen(store, "file2", 2);
      var w := SMF.WriteAt(st, creator, 0, [1, 2], 0, 2);
      && w.Ok?
      && var (st2, creator2) := SMF.CreateOrOpen(w.value.0, "file2", 5);
      && creator2.size == 2
      && var r := SMF.ReadInto(st2, creator2, Zeros(5));
      && r.Ok? && r.value[..2] == [1, 2]
  {
    var (st, creator) := SMF.CreateOrOpen(store, "file2", 2);
    SMFFacts.WriteKeepsAtMostSizeBytes(st, creator, [1, 2]);
  }

  /** Opening a name nobody created fails with the name in the message. */
  lemma FileOpenOfMissingNameFails(store: SMF.Store)
    requires "null" !in store
    ensures SMF.Open(store, "null") == Err(InvalidOperation("SharedMemoryFile null does not exist"))
  {
  }

  /** A name can be created again once the file holding it is disposed. */
  lemma FileNameReusableAfterDispose(store: SMF.Store)
    requires "file3" !in store
    ensures
      var (st, first) := SMF.CreateOrOpen(store, "file3", 1);
      var (freed, _) := SMF.Dispose(st, first);
      && "file3" !in freed
      && var (st2, second) := SMF.CreateOrOpen(freed, "file3", 1);
      && second.size == 1 && SMF.InSync(st2, second)
      && SMF.Dispose(st2, second).0 == store
  {
  }

  /** Reading three bytes from position 2 into offset 7 of a ten-byte array
      puts bytes 3, 4, 5 at the end of the array. */
  lemma FileReadsSpecifiedView(store: SMF.Store)
    requires "fil4" !in store
    ensures
      var (st, file) := SMF.CreateOrOpen(store, "fil4", 5);
      var w := SMF.WriteAt(st, file, 0, [1, 2, 3, 4, 5], 0, 5);
      && w.Ok?
      && var r := SMF.ReadAt(w.value.0, file, 2, Zeros(10), 7, 3);
      && r.Ok? && r.value[7..] == [3, 4, 5]
  {
    var (st, file) := SMF.CreateOrOpen(store, "fil4", 5);
    SMFFacts.WriteKeepsAtMostSizeBytes(st, file, [1, 2, 3, 4, 5]);
    var w := SMF.WriteAt(st, file, 0, [1, 2, 3, 4, 5], 0, 5);
    assert w.value.0["fil4"].data == [1, 2, 3, 4, 5];
    var r := SMF.ReadAt(w.value.0, file, 2, Zeros(10), 7, 3);
    assert r.value[7..] == r.value[7..10] == [1, 2, 3, 4, 5][2..5];
  }

  /** A file created with 4,000,000,000 bytes reports that size. */
  lemma FileReportsItsSize(store: SMF.Store)
    requires "fileSize" !in store
    ensures SMF.CreateOrOpen(store, "fileSize", 0xEE6B2800).1.size == 0xEE6B2800
  {
  }

  /** Writing [7, 8] at position 0 over [1, 2, 3, 4] gives [7, 8, 3, 4]. */
  lemma FileWriteOverwritesPrefix(store: SMF.Store)
    requires "writer" !in store
    ensures
      var (st, file) := SMF.CreateOrOpen(store, "writer", 4);
      && file.size == 4
      && var w1 := SMF.WriteAt(st, file, 0, [1, 2, 3, 4], 0, 4);
      && w1.Ok?
      && SMF.ReadInto(w1.value.0, file, Zeros(4)) == Ok([1, 2, 3, 4])
      && var w2 := SMF.WriteAt(w1.value.0, file, 0, [7, 8], 0, 2);
      && w2.Ok?
      && SMF.ReadInto(w2.value.0, file, Zeros(4)) == Ok([7, 8, 3, 4])
  {
    var (st, file) := SMF.CreateOrOpen(store, "writer", 4);
    SMFFacts.WriteKeepsAtMostSizeBytes(st, file, [1, 2, 3, 4]);
    var w1 := SMF.WriteAt(st, file, 0, [1, 2, 3, 4], 0, 4);
    var first: seq<byte> := [1, 2, 3, 4];
    assert first[..4] == first;
    assert w1.value.0["writer"].data == first;
    SMFFacts.WriteKeepsAtMostSizeBytes(w1.value.0, file, [7, 8]);
    assert [7, 8] + first[2..] == [7, 8, 3, 4];
  }

  /** Resizing [1, 2, 3, 4] by +2 or -2 gives the new size and keeps every
      byte both sizes share. */
  lemma FileResizeKeepsSharedPrefix(store: SMF.Store, changeBy: int)
    requires "resize" !in store
    requires changeBy == 2 || changeBy == -2
    ensures
      var (st, file) := SMF.CreateOrOpen(store, "resize", 4);
      var w := SMF.WriteAt(st, file, 0, [1, 2, 3, 4], 0, 4);
      && w.Ok?
      && var newSize := 4 + changeBy;
      && var r := SMF.Resize(w.value.0, file, newSize);
      && r.Ok?
      && r.value.1.size == newSize
      && var back := SMF.ReadAt(r.value.0, r.value.1, 0, Zeros(newSize), 0, newSize);
      && back.Ok?
      && back.value[..Min(newSize, 4)] == [1, 2, 3, 4][..Min(newSize, 4)]
  {
    var (st, file) := SMF.CreateOrOpen(store, "resize", 4);
    SMFFacts.WriteKeepsAtMostSizeBytes(st, file, [1, 2, 3, 4]);
    var w := SMF.WriteAt(st, file, 0, [1, 2, 3, 4], 0, 4);
    var newSize := 4 + changeBy;
    var r := SMF.Resize(w.value.0, file, newSize);
    var back := SMF.ReadAt(r.value.0, r.value.1, 0, Zeros(newSize), 0, newSize);
    assert back.value == r.value.0["resize"].data;
  }

  // ---------------------------------------------------------------------
  // SharedMemoryStream
  // ---------------------------------------------------------------------

  /** A new stream is at position 0 with length 0. */
  lemma StreamStartsEmpty(name: string)
    ensures Create(name).position == 0 && Create(name).length == 0
  {
  }

  /** Write a payload, seek to the beginning, read as many bytes: the same
      bytes come back (the test writes [1, 2, 3, 4, 5]). */
  lemma StreamReturnsDataIntraprocess(store: SMF.Store, name: string, payload: seq<byte>)
    ensures
      var s := Write(Create(name), payload, 0, |payload|);
      var back := Seek(s, 0, Begin);
      && back.Ok?
      && var r := Read(store, back.value, Zeros(|payload|), 0, |payload|);
      && r.Ok? && r.value.buffer == payload
  {
    StreamFacts.WrittenBytesReadBack(store, Create(name), payload, 0, |payload|);
    assert payload[0..|payload|] == payload;
  }

  /** Write a payload and flush; a stream opened on the name (the other
      process) reads the same bytes (the test writes [1, 2, 3, 4, 5]). */
  lemma StreamReturnsDataInterprocess(store: SMF.Store, name: string, payload: seq<byte>)
    requires name !in store
    ensures
      var s := Write(Create(name), payload, 0, |payload|);
      var f := Flush(store, s);
      && f.Ok?
      && var pickup := Open(f.value.0, name);
      && pickup.Ok?
      && var r := Read(f.value.0, pickup.value, Zeros(|payload|), 0, |payload|);
      && r.Ok? && r.value.buffer == payload
  {
    var s := Write(Create(name), payload, 0, |payload|);
    assert s.buffer == payload;
    StreamFacts.FlushedBufferReadsBack(store, s, Zeros(|payload|));
  }

  /** Write two payloads, seek to 0, read each back by its length: both come
      back in order, a further read returns 0, and the length and the
      position are both the total (the test writes [1..5] then [6, 7, 8]). */
  lemma StreamReturnsTwoPayloads(store: SMF.Store, name: string, a: seq<byte>, b: seq<byte>)
    ensures
      var s := Write(Write(Create(name), a, 0, |a|), b, 0, |b|);
      var back := Seek(s, 0, Begin);
      && back.Ok?
      && var r1 := Read(store, back.value, Zeros(|a|), 0, |a|);
      && r1.Ok? && r1.value.buffer == a
      && var r2 := Read(store, r1.value.stream, Zeros(|b|), 0, |b|);
      && r2.Ok? && r2.value.buffer == b
      && var r3 := Read(store, r2.value.stream, [0], 0, 1);
      && r3.Ok? && r3.value.count == 0
      && r3.value.stream.length == |a| + |b| && r3.value.stream.position == |a| + |b|
  {
    var s1 := Write(Create(name), a, 0, |a|);
    assert s1.buffer == a;
    var s := Write(s1, b, 0, |b|);
    assert s.buffer == a + b;
    assert s.length == |a| + |b| && s.file.None? && Mirrored(s);
    var t0 := Seek(s, 0, Begin).value;
    assert t0 == s.(position := 0);
    StreamFacts.BufferedReadReturnsSlice(store, t0, Zeros(|a|));
    var t1 := t0.(position := |a|);
    assert s.buffer[0..|a|] == a;
    StreamFacts.BufferedReadReturnsSlice(store, t1, Zeros(|b|));
    var t2 := t1.(position := |a| + |b|);
    assert s.buffer[|a|..|a| + |b|] == b;
    StreamFacts.ReadAtEndIsStable(store, t2, [0], 1);
  }

  /** Write 1000 bytes (any 1000) then set the length: the length is the
      new value, and a read of that many bytes returns only what lies past
      position 1000. */
  lemma StreamSetLengthThenRead(store: SMF.Store, data: seq<byte>, length: nat)
    requires |data| == 1000
    ensures
      var s := Write(Create("len"), data, 0, 1000);
      && s.length == 1000
      && var t := SetLength(s, length);
      && t.length == length
      && var r := Read(store, t, Zeros(length), 0, length);
      && r.Ok?
      && r.value.count == (if length > 1000 then length - 1000 else 0)
      && |r.value.buffer| == length
  {
    var s := Write(Create("len"), data, 0, 1000);
    assert s.position == 1000 && s.length == 1000 && |s.buffer| == 1000 && s.file.None?;
    var t := SetLength(s, length);
    assert t.position == 1000 && SourceSize(t) == length;
  }

  /** On a stream of ten written bytes (any ten): Begin 5 gives 5, Current
      -3 gives 7, End -4 gives 6, Begin -1 fails before the beginning and
      Begin 11 fails beyond the end. */
  lemma StreamSeekBoundaries(data: seq<byte>)
    requires |data| == 10
    ensures
      var s := Write(Create("seek"), data, 0, 10);
      && s.position == 10
      && Seek(s, 5, Begin) == Ok(s.(position := 5))
      && Seek(s, -3, Current) == Ok(s.(position := 7))
      && Seek(s, -4, End) == Ok(s.(position := 6))
      && Seek(s, -1, Begin) == Err(Argument("Can't seek before beginning of stream"))
      && Seek(s, 11, Begin) == Err(Argument("Can't seek beyond end of stream"))
  {
    var s := Write(Create("seek"), data, 0, 10);
    assert s.position == 10 && s.length == 10;
    assert Target(s, 5, Begin) == 5 && Target(s, -3, Current) == 7 && Target(s, -4, End) == 6;
    assert Target(s, -1, Begin) == -1 && Target(s, 11, Begin) == 11;
  }

  /** Open a stream on a 100-byte file, set its length to 10 and read 50:
      the read still takes 50 bytes from the file (it is sized by the file),
      and the length becomes 10 + 50 = 60 while the position is 50. */
  lemma StreamReadPastShortenedLength(store: SMF.Store, name: string)
    requires name in store && store[name].size == 100
    ensures
      var o := Open(store, name);
      && o.Ok?
      && var t := SetLength(o.value, 10);
      && var r := Read(store, t, Zeros(50), 0, 50);
      && r.Ok?
      && r.value.count == 50
      && r.value.stream.position == 50
      && r.value.stream.length == 60
  {
    var o := Open(store, name).value;
    var t := SetLength(o, 10);
    assert t.position == 0 && t.length == 10 && t.file == o.file && SourceSize(t) == 100;
    assert Coherent(store, t);
  }
}
