/** Properties that relate several SharedMemoryStream operations: writes
    read back after a seek, a flushed buffer read back through a second
    stream, and the algebra of Seek, SetLength and Dispose. */
module SharedMemoryStreamFacts {
  import opened Bytes
  import opened Results
  import SMF = SharedMemoryFile
  import opened SharedMemoryStream

  /** On a stream with no file yet, the bytes a `Write` appends are exactly
      the ones a `Read` returns after seeking back to where the stream ended
      before the write; the read leaves the position at the new end. */
  lemma WrittenBytesReadBack(store: SMF.Store, s: Stream, src: seq<byte>, offset: nat, count: nat)
    requires s.file.None? && Mirrored(s)
    requires offset + count <= |src|
    ensures
      var w := Write(s, src, offset, count);
      var back := Seek(w, s.length, Begin);
      && back.Ok?
      && var r := Read(store, back.value, Zeros(count), 0, count);
      && r.Ok?
      && r.value.count == count
      && r.value.buffer == src[offset..offset + count]
      && r.value.stream.position == r.value.stream.length == s.length + count
  {
    var w := Write(s, src, offset, count);
    var back := Seek(w, s.length, Begin).value;
    var r := Read(store, back, Zeros(count), 0, count);
    if count > 0 {
      assert back.position < SourceSize(back);
      assert w.buffer[s.length..s.length + count] == src[offset..offset + count];
      assert r.value.buffer == r.value.buffer[0..count];
    }
  }

  /** With no file, a read that fits in the buffer returns exactly the
      buffer bytes at the position, moves the position past them and
      changes nothing else. */
  lemma BufferedReadReturnsSlice(store: SMF.Store, s: Stream, dest: seq<byte>)
    requires s.file.None? && Mirrored(s)
    requires s.position + |dest| <= |s.buffer|
    ensures
      var n := |dest|;
      Read(store, s, dest, 0, n)
        == Ok(ReadOutcome(n, s.buffer[s.position..s.position + n], s.(position := s.position + n)))
  {
    var n := |dest|;
    var copied := s.buffer[s.position..s.position + n];
    var t := s.(position := s.position + n);
    if s.position >= SourceSize(s) {
      assert n == 0 && dest == copied && t == s;
    } else {
      assert Available(s, n) == n;
      var o := StreamRead(s, dest, 0, n);
      assert o == o[0..n] == copied;
      assert Advance(s, n) == t;
      assert ReadAvailable(store, s, dest, 0, n) == Ok(ReadOutcome(n, o, t));
    }
  }

  /** A stream with no file whose name is free: `Flush` creates a file of
      exactly the buffer's size holding the buffer, and a stream `Open`ed on
      that name afterwards has that length and reads the buffer back. */
  lemma FlushedBufferReadsBack(store: SMF.Store, s: Stream, dest: seq<byte>)
    requires s.file.None? && s.name !in store
    requires |dest| == |s.buffer|
    ensures
      var f := Flush(store, s);
      && f.Ok?
      && f.value.1.position == 0 && f.value.1.buffer == [] && f.value.1.length == s.length
      && var o := Open(f.value.0, s.name);
      && o.Ok?
      && o.value.length == |s.buffer|
      && var r := Read(f.value.0, o.value, dest, 0, |dest|);
      && r.Ok?
      && r.value.count == |s.buffer|
      && r.value.buffer == s.buffer
  {
    var f := Flush(store, s);
    var st := f.value.0;
    assert st[s.name].size == |s.buffer|;
    assert st[s.name].data == s.buffer by {
      forall i | 0 <= i < |s.buffer| ensures st[s.name].data[i] == s.buffer[i] { }
    }
    var o := Open(st, s.name).value;
    var r := Read(st, o, dest, 0, |dest|);
    if |dest| > 0 {
      assert r.value.buffer == r.value.buffer[0..|dest|];
    }
  }

  /** After a `Flush` the stream is bound to a file of its own name that it
      is in step with, so further reads and flushes cannot fail. */
  lemma FlushBindsTheFile(store: SMF.Store, s: Stream, dest: seq<byte>, count: nat)
    requires Coherent(store, s)
    requires count <= |dest|
    ensures
      var f := Flush(store, s);
      && f.Ok?
      && f.value.1.file.Some?
      && Read(f.value.0, f.value.1, dest, 0, count).Ok?
      && Flush(f.value.0, f.value.1).Ok?
  {
  }

  /** Seeking from the current position or from the end is seeking from the
      beginning to the position or length plus the offset. */
  lemma SeekOriginsAgree(s: Stream, offset: int)
    ensures Seek(s, offset, Current) == Seek(s, s.position + offset, Begin)
    ensures Seek(s, offset, End) == Seek(s, s.length + offset, Begin)
  {
  }

  /** `Seek(0, Current)` leaves the stream as it is exactly when the position
      lies within the length; `Seek(0, End)` moves to the length. */
  lemma SeekZero(s: Stream)
    ensures Seek(s, 0, Current).Ok? <==> s.position <= s.length
    ensures Seek(s, 0, Current).Ok? ==> Seek(s, 0, Current).value == s
    ensures Seek(s, 0, End).Ok? && Seek(s, 0, End).value.position == s.length
  {
  }

  /** A successful seek followed by the same seek from the beginning to the
      position it reached changes nothing more. */
  lemma SeekIsIdempotent(s: Stream, offset: int, origin: Origin)
    requires Seek(s, offset, origin).Ok?
    ensures
      var t := Seek(s, offset, origin).value;
      Seek(t, t.position, Begin) == Ok(t)
  {
  }

  /** Setting the same length twice is setting it once. */
  lemma SetLengthIsIdempotent(s: Stream, value: int)
    ensures SetLength(SetLength(s, value), value) == SetLength(s, value)
  {
    var once := SetLength(s, value);
    var twice := SetLength(once, value);
    assert twice.buffer == once.buffer by {
      forall i | 0 <= i < |once.buffer| ensures twice.buffer[i] == once.buffer[i] { }
    }
  }

  /** Truncating then extending back keeps the first bytes and zero-fills the
      rest: the cut-off bytes do not come back. */
  lemma ShrinkThenGrowZeroFills(s: Stream, small: nat, large: nat)
    requires small <= large
    ensures
      var t := SetLength(SetLength(s, small), large);
      var keep := Min(small, |s.buffer|);
      && t.length == large
      && t.buffer[..keep] == s.buffer[..keep]
      && t.buffer[keep..] == Zeros(large - keep)
  {
    var t := SetLength(SetLength(s, small), large);
    var keep := Min(small, |s.buffer|);
    assert t.buffer[..keep] == s.buffer[..keep];
    assert t.buffer[keep..] == Zeros(large - keep) by {
      forall i | keep <= i < large ensures t.buffer[i] == 0 { }
    }
  }

  /** `SetLength` does not move the position, so shrinking a stream leaves
      the position beyond the length (position <= length is not an invariant
      of this code), and a read from there returns nothing. */
  lemma ShrinkLeavesPositionPastEnd(store: SMF.Store, s: Stream, value: nat, dest: seq<byte>, count: nat)
    requires s.file.None? && value < s.position
    requires count <= |dest|
    ensures
      var t := SetLength(s, value);
      && t.position > t.length
      && Read(store, t, dest, 0, count) == Ok(ReadOutcome(0, dest, t))
  {
  }

  /** Reading at the end of the source is a no-op every time. */
  lemma ReadAtEndIsStable(store: SMF.Store, s: Stream, dest: seq<byte>, count: nat)
    requires s.position >= SourceSize(s)
    requires count <= |dest|
    ensures
      var r := Read(store, s, dest, 0, count);
      && r == Ok(ReadOutcome(0, dest, s))
      && Read(store, r.value.stream, dest, 0, count) == r
  {
  }

  /** Once a file is attached, a read takes its bytes from the file and
      appends them to the buffer, so the same range is then in the buffer. */
  lemma FileReadCachesBytes(store: SMF.Store, s: Stream, dest: seq<byte>, count: nat)
    requires Coherent(store, s) && s.file.Some?
    requires s.position < SourceSize(s)
    requires count <= |dest|
    ensures
      var r := Read(store, s, dest, 0, count);
      var n := r.value.count;
      && r.Ok?
      && (count > 0 ==> n > 0)
      && r.value.stream.buffer[|s.buffer|..] == store[s.name].data[s.position..s.position + n]
  {
    var r := Read(store, s, dest, 0, count);
    var n := r.value.count;
    assert r.value.stream.buffer[|s.buffer|..] == r.value.buffer[0..n];
  }

  /** A read that carries the position past the length grows the length by
      the count read, not up to the new position: the distance between the
      two is the same before and after, so unless they started equal the
      length does not end at the position. */
  lemma ReadPastLengthKeepsGap(store: SMF.Store, s: Stream, dest: seq<byte>, count: nat)
    requires count <= |dest|
    requires Read(store, s, dest, 0, count).Ok?
    requires s.position + Read(store, s, dest, 0, count).value.count > s.length
    ensures
      var t := Read(store, s, dest, 0, count).value.stream;
      && t.length - t.position == s.length - s.position
      && (s.length != s.position ==> t.length != t.position)
  {
  }

  /** Dispose runs once: disposing a disposed stream changes nothing. */
  lemma DisposeIsIdempotent(store: SMF.Store, s: Stream)
    ensures
      var (st, t) := Dispose(store, s);
      Dispose(st, t) == (st, t)
  {
  }

  /** Disposing a stream bound to a file frees the file's name. */
  lemma DisposeFreesFile(store: SMF.Store, s: Stream)
    requires !s.disposed && Coherent(store, s) && s.file.Some?
    ensures
      var (st, _) := Dispose(store, s);
      && s.name !in st
      && st == store - {s.name}
  {
  }
}
