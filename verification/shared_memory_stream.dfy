/** SharedMemoryStream: a seekable byte stream that collects written bytes
    in an in-memory buffer and persists them to a SharedMemoryFile on
    `Flush`. Every operation is a pure transition on a `Stream` record;
    the ones that touch the file also take (and `Flush` and `Dispose`
    return) the store of named mappings. */
module SharedMemoryStream {
  import opened Bytes
  import opened Results
  import SMF = SharedMemoryFile

  datatype Origin = Begin | Current | End

  /** The four pieces of stream state, plus the name it was made with and the
      flag `Dispose` sets. The source's `_buffer` is an `Option` that is always
      `Some`, so it is a plain sequence here. */
  datatype Stream = Stream(
    name: string,
    length: nat,
    position: nat,
    buffer: seq<byte>,
    file: Option<SMF.Handle>,
    disposed: bool)

  /** What `Read` hands back: the number of bytes read, the caller's array
      after the copy, and the stream after the call. */
  datatype ReadOutcome = ReadOutcome(count: nat, buffer: seq<byte>, stream: Stream)

  const BeforeBeginning: string := "Can't seek before beginning of stream"
  const BeyondEnd: string := "Can't seek beyond end of stream"

  /** Without a backing file the buffer is the whole stream: it holds exactly
      `length` bytes. */
  predicate Mirrored(s: Stream) {
    s.file.None? ==> |s.buffer| == s.length
  }

  /** The attached file, if any, is a live handle onto the mapping named like
      the stream, and reports that mapping's size. */
  predicate Coherent(store: SMF.Store, s: Stream) {
    s.file.Some? ==> s.file.value.name == s.name && SMF.InSync(store, s.file.value)
  }

  /** Where `Read` takes its bytes from, and how many there are: the file's
      size once a file is attached, the buffer's count before that. */
  function SourceSize(s: Stream): nat {
    match s.file
    case Some(h) => h.size
    case None => |s.buffer|
  }

  // ---------------------------------------------------------------------
  // Construction
  // ---------------------------------------------------------------------

  /** The private constructor: an empty buffer, position 0, and the length
      taken from the file when there is one. */
  function Construct(name: string, file: Option<SMF.Handle>): (s: Stream)
    ensures s.name == name && s.file == file && s.buffer == [] && s.position == 0 && !s.disposed
    ensures file.None? ==> s.length == 0
    ensures file.Some? ==> s.length == file.value.size
  {
    Stream(name, if file.Some? then file.value.size else 0, 0, [], file, false)
  }

  /** `Create(name)`: a purely buffered stream with no file behind it yet. */
  function Create(name: string): (s: Stream)
    ensures s.position == 0 && s.length == 0 && s.buffer == [] && s.file.None? && s.name == name
    ensures !s.disposed
    ensures Mirrored(s)
  {
    Construct(name, None)
  }

  /** `Open(name)`: a stream over the existing file of that name, as long as
      the file; fails as SharedMemoryFile.Open does when there is none. */
  function Open(store: SMF.Store, name: string): (r: Result<Stream>)
    ensures r.Ok? <==> name in store
    ensures r.Err? ==> r.error == InvalidOperation(SMF.NotFoundMessage(name))
    ensures r.Ok? ==>
      var s := r.value;
      && s.position == 0 && s.length == store[name].size && s.buffer == []
      && s.name == name && s.file.Some? && !s.disposed
      && Coherent(store, s)
  {
    var h :- SMF.Open(store, name);
    Ok(Construct(name, Some(h)))
  }

  /** The public `Position` setter: it stores any position it is given,
      beyond the length included. */
  function SetPosition(s: Stream, position: nat): (r: Stream)
    ensures r.position == position
    ensures r.length == s.length && r.buffer == s.buffer && r.file == s.file && r.name == s.name
    ensures r.disposed == s.disposed
    ensures Mirrored(s) ==> Mirrored(r)
  {
    s.(position := position)
  }

  // ---------------------------------------------------------------------
  // Write and SetLength
  // ---------------------------------------------------------------------

  /** `Write(buffer, offset, count)`: appends `buffer.Skip(offset).Take(count)`
      to the END of the in-memory buffer, whatever the position, and moves
      both the position and the length on by `count`. */
  function Write(s: Stream, buffer: seq<byte>, offset: nat, count: nat): (r: Stream)
    ensures r.position == s.position + count && r.length == s.length + count
    ensures r.name == s.name && r.file == s.file && r.disposed == s.disposed
    ensures s.buffer <= r.buffer
    ensures offset + count <= |buffer| ==> r.buffer == s.buffer + buffer[offset..offset + count]
    ensures offset + count > |buffer| ==> r.buffer == s.buffer + buffer[Min(offset, |buffer|)..]
    ensures offset + count <= |buffer| && Mirrored(s) ==> Mirrored(r)
  {
    s.(buffer := s.buffer + SkipTake(buffer, offset, count),
       position := s.position + count,
       length := s.length + count)
  }

  /** `SetLength(value)`: the buffer keeps its first `value` bytes and is
      zero-padded up to `value`; the length becomes the buffer's count. A
      negative value empties it. The position is left alone. */
  function SetLength(s: Stream, value: int): (r: Stream)
    ensures |r.buffer| == r.length == Max(value, 0)
    ensures forall i :: 0 <= i < |r.buffer| ==>
      r.buffer[i] == (if i < |s.buffer| then s.buffer[i] else 0)
    ensures r.position == s.position && r.file == s.file && r.name == s.name && r.disposed == s.disposed
    ensures Mirrored(r)
  {
    var kept :=
      if |s.buffer| > value then s.buffer[..Max(value, 0)]
      else s.buffer + Zeros(value - |s.buffer|);
    s.(buffer := kept, length := |kept|)
  }

  // ---------------------------------------------------------------------
  // Seek
  // ---------------------------------------------------------------------

  /** The position `Seek` proposes before checking it. */
  function Target(s: Stream, offset: int, origin: Origin): int {
    match origin
    case Begin => offset
    case Current => s.position + offset
    case End => s.length + offset
  }

  /** `Seek(offset, origin)`: moves the position to the target when it lies
      in `[0, Length]`, and otherwise throws, naming the side it fell off. */
  function Seek(s: Stream, offset: int, origin: Origin): (r: Result<Stream>)
    ensures r.Ok? <==> 0 <= Target(s, offset, origin) <= s.length
    ensures Target(s, offset, origin) < 0 ==> r == Err(Argument(BeforeBeginning))
    ensures Target(s, offset, origin) > s.length ==> r == Err(Argument(BeyondEnd))
    ensures r.Ok? ==>
      && r.value.position == Target(s, offset, origin) <= r.value.length
      && r.value.length == s.length && r.value.buffer == s.buffer
      && r.value.file == s.file && r.value.name == s.name && r.value.disposed == s.disposed
  {
    var proposed := Target(s, offset, origin);
    if proposed < 0 then Err(Argument(BeforeBeginning))
    else if proposed > s.length then Err(Argument(BeyondEnd))
    else Ok(s.(position := proposed))
  }

  // ---------------------------------------------------------------------
  // Read
  // ---------------------------------------------------------------------

  /** `StreamRead`: copies `count` buffer bytes from the position into the
      caller's array at `offset`. */
  function StreamRead(s: Stream, dest: seq<byte>, offset: nat, count: nat): (r: seq<byte>)
    requires offset + count <= |dest|
    requires s.position + count <= |s.buffer|
    ensures |r| == |dest|
    ensures r[offset..offset + count] == s.buffer[s.position..s.position + count]
    ensures r[..offset] == dest[..offset] && r[offset + count..] == dest[offset + count..]
  {
    Overlay(dest, offset, s.buffer[s.position..s.position + count])
  }

  /** `FileRead`: copies `count` file bytes from the position into the
      caller's array at `offset`, then appends those same bytes to the
      stream's buffer. */
  function FileRead(store: SMF.Store, s: Stream, h: SMF.Handle, dest: seq<byte>, offset: nat, count: nat)
    : (r: Result<(seq<byte>, Stream)>)
    requires offset + count <= |dest|
    ensures r.Ok? <==> SMF.Live(store, h) && s.position + count <= store[h.name].size
    ensures r.Ok? ==>
      var (copied, t) := r.value;
      && |copied| == |dest|
      && copied[offset..offset + count] == store[h.name].data[s.position..s.position + count]
      && copied[..offset] == dest[..offset] && copied[offset + count..] == dest[offset + count..]
      && t == s.(buffer := s.buffer + store[h.name].data[s.position..s.position + count])
  {
    var copied :- SMF.ReadAt(store, h, s.position, dest, offset, count);
    Ok((copied, s.(buffer := s.buffer + copied[offset..offset + count])))
  }

  /** The position and length once `n` bytes have been read: the position
      moves on by `n`, and the length grows by `n` (not up to the new
      position) only when the new position has passed it. */
  function Advance(s: Stream, n: nat): (t: Stream)
    ensures t.position == s.position + n
    ensures s.position + n > s.length ==> t.length == s.length + n
    ensures s.position + n <= s.length ==> t.length == s.length
    ensures t.name == s.name && t.buffer == s.buffer && t.file == s.file && t.disposed == s.disposed
  {
    var advanced := s.position + n;
    s.(position := advanced, length := if s.length < advanced then s.length + n else s.length)
  }

  /** How many bytes a read of `count` gets: none at or past the end of the
      source, otherwise as many as asked for, up to the end of the source. */
  function Available(s: Stream, count: nat): (n: nat)
    ensures s.position >= SourceSize(s) ==> n == 0
    ensures s.position < SourceSize(s) ==> n == Min(count, SourceSize(s) - s.position)
  {
    if s.position >= SourceSize(s) then 0
    else if s.position + count > SourceSize(s) then SourceSize(s) - s.position
    else count
  }

  /** The bytes a read copies from: the buffer before a file is attached,
      the file's bytes once one is. */
  function Source(store: SMF.Store, s: Stream): seq<byte> {
    match s.file
    case None => s.buffer
    case Some(h) => if h.name in store then store[h.name].data else []
  }

  /** The `n` bytes a read takes from its source at the position. */
  function Copied(store: SMF.Store, s: Stream, n: nat): seq<byte>
    requires s.position + n <= |Source(store, s)|
  {
    Source(store, s)[s.position..s.position + n]
  }

  /** The read of `n` available bytes: from the buffer when no file is
      attached, from the file (through `FileRead`) when one is. */
  function ReadAvailable(store: SMF.Store, s: Stream, dest: seq<byte>, offset: nat, n: nat)
    : (r: Result<ReadOutcome>)
    requires offset + n <= |dest|
    requires s.position + n <= SourceSize(s)
    ensures s.file.None? ==> r.Ok?
    ensures Coherent(store, s) ==> r.Ok?
    ensures r.Ok? ==>
      && r.value.count == n
      && s.position + n <= |Source(store, s)|
      && r.value.buffer == Overlay(dest, offset, Copied(store, s, n))
      && var t := r.value.stream;
      && t.buffer == s.buffer + (if s.file.Some? then Copied(store, s, n) else [])
      && t.position == s.position + n
      && (s.position + n > s.length ==> t.length == s.length + n)
      && (s.position + n <= s.length ==> t.length == s.length)
      && t.name == s.name && t.file == s.file && t.disposed == s.disposed
    ensures r.Ok? && Mirrored(s) ==> Mirrored(r.value.stream)
    ensures r.Ok? && Coherent(store, s) ==> Coherent(store, r.value.stream)
  {
    match s.file
    case None =>
      Ok(ReadOutcome(n, StreamRead(s, dest, offset, n), Advance(s, n)))
    case Some(h) =>
      var (copied, t) :- FileRead(store, s, h, dest, offset, n);
      Ok(ReadOutcome(n, copied, Advance(t, n)))
  }

  /** `Read(buffer, offset, count)`. At or past the end of the source it
      returns 0 and changes nothing. Otherwise it copies
      `n = min(count, size - Position)` source bytes from the position into
      the caller's array at `offset` (from the buffer, or from the file, which
      then also appends them to the buffer) and moves the position on by
      `n`. When the new position passes the length, the length grows by `n`
      (not up to the position, so it can overshoot it); otherwise it stays. */
  function Read(store: SMF.Store, s: Stream, dest: seq<byte>, offset: nat, count: nat)
    : (r: Result<ReadOutcome>)
    requires offset + count <= |dest|
    ensures Coherent(store, s) ==> r.Ok?
    ensures r.Err? ==> s.file.Some?
    ensures s.position >= SourceSize(s) ==> r == Ok(ReadOutcome(0, dest, s))
    ensures r.Ok? && s.position < SourceSize(s) ==>
      var n := r.value.count;
      var t := r.value.stream;
      && n == Min(count, SourceSize(s) - s.position)
      && s.position + n <= |Source(store, s)|
      && r.value.buffer == Overlay(dest, offset, Copied(store, s, n))
      && t.buffer == s.buffer + (if s.file.Some? then Copied(store, s, n) else [])
      && t.position == s.position + n
      && (s.position + n > s.length ==> t.length == s.length + n)
      && (s.position + n <= s.length ==> t.length == s.length)
      && t.name == s.name && t.file == s.file && t.disposed == s.disposed
    ensures r.Ok? && Mirrored(s) ==> Mirrored(r.value.stream)
    ensures r.Ok? && Coherent(store, s) ==> Coherent(store, r.value.stream)
  {
    if s.position >= SourceSize(s) then Ok(ReadOutcome(0, dest, s))
    else
      var n := Available(s, count);
      var r := ReadAvailable(store, s, dest, offset, n);
      assert r.Ok? ==> r.value.count == n;
      r
  }

  // ---------------------------------------------------------------------
  // Flush and Dispose
  // ---------------------------------------------------------------------

  /** The size of the file after a successful `Flush`. */
  function FlushedSize(store: SMF.Store, s: Stream): nat {
    match s.file
    case Some(h) => Max(h.size, s.length)
    case None => if s.name in store then store[s.name].size else |s.buffer|
  }

  /** Byte `i` of the file a `Flush` writes into, before the buffer is
      written: the old byte where there was one, zero in fresh space. */
  function Prior(store: SMF.Store, name: string, i: nat): byte {
    if name in store && i < store[name].size then store[name].data[i] else 0
  }

  /** The file `Flush` writes into: the attached one, resized up to the
      stream's length if it is shorter; or, with none attached,
      `CreateOrOpen` of the stream's name sized to the buffer. On a coherent
      stream this is a file of the stream's name, of the flushed size,
      holding the prior bytes (zero in any new space), and nothing else in
      the store changes. */
  function FlushTarget(store: SMF.Store, s: Stream): (r: Result<(SMF.Store, SMF.Handle)>)
    ensures s.file.None? ==> r.Ok?
    ensures Coherent(store, s) ==> r.Ok?
    ensures r.Ok? && Coherent(store, s) ==>
      var (st, h) := r.value;
      && SMF.InSync(st, h) && h.name == s.name
      && h.size == FlushedSize(store, s)
      && st - {s.name} == store - {s.name}
      && forall i :: 0 <= i < h.size ==> st[s.name].data[i] == Prior(store, s.name, i)
  {
    match s.file
    case Some(h) => if h.size < s.length then SMF.Resize(store, h, s.length) else Ok((store, h))
    case None => Ok(SMF.CreateOrOpen(store, s.name, |s.buffer|))
  }

  /** The second half of `Flush`: the whole buffer written at offset 0 of
      the target file, the stream bound to it with an empty buffer at
      position 0. Bytes of the buffer beyond the file's size are dropped. */
  function FlushInto(store: SMF.Store, h: SMF.Handle, s: Stream): (r: Result<(SMF.Store, Stream)>)
    ensures r.Ok? <==> SMF.Live(store, h)
    ensures r.Ok? ==>
      var (st, t) := r.value;
      && t == s.(file := Some(h), position := 0, buffer := [])
      && h.name in st
      && st[h.name].size == store[h.name].size
      && st - {h.name} == store - {h.name}
      && forall i :: 0 <= i < st[h.name].size ==>
           st[h.name].data[i] == (if i < |s.buffer| then s.buffer[i] else store[h.name].data[i])
  {
    var written :- SMF.WriteAt(store, h, 0, s.buffer, 0, |s.buffer|);
    Ok((written.0, s.(file := Some(written.1), position := 0, buffer := [])))
  }

  /** `Flush()`: writes the whole buffer into the target file at offset 0,
      then empties the buffer and rewinds the position. It runs even when the
      buffer is empty. */
  function Flush(store: SMF.Store, s: Stream): (r: Result<(SMF.Store, Stream)>)
    ensures Coherent(store, s) ==> r.Ok?
    ensures r.Ok? ==>
      var t := r.value.1;
      && t.buffer == [] && t.position == 0 && t.length == s.length
      && t.name == s.name && t.disposed == s.disposed && t.file.Some?
    ensures r.Ok? && Coherent(store, s) ==>
      var (st, t) := r.value;
      && Coherent(st, t)
      && t.file.value.size == FlushedSize(store, s)
      && st - {s.name} == store - {s.name}
      && forall i :: 0 <= i < st[s.name].size ==>
           st[s.name].data[i] == (if i < |s.buffer| then s.buffer[i] else Prior(store, s.name, i))
  {
    var target :- FlushTarget(store, s);
    FlushInto(target.0, target.1, s)
  }

  /** `Dispose()`: disposes the attached file, if any, the first time only. */
  function Dispose(store: SMF.Store, s: Stream): (r: (SMF.Store, Stream))
    ensures r.1.disposed
    ensures r.1.name == s.name && r.1.length == s.length && r.1.position == s.position && r.1.buffer == s.buffer
    ensures s.disposed ==> r == (store, s)
    ensures !s.disposed && s.file.None? ==> r == (store, s.(disposed := true))
    ensures !s.disposed && s.file.Some? ==>
      r.1.file == Some(s.file.value.(disposed := true))
      && (!s.file.value.disposed ==> s.file.value.name !in r.0)
      && r.0 - {s.file.value.name} == store - {s.file.value.name}
  {
    if s.disposed then (store, s)
    else
      match s.file
      case None => (store, s.(disposed := true))
      case Some(h) =>
        var (st, h') := SMF.Dispose(store, h);
        (st, s.(file := Some(h'), disposed := true))
  }
}
