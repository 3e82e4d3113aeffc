# SharedMemoryStream and SharedMemoryFile, modelled in Dafny

This project models the core of Psns.Common.InterProcess. That core is a
seekable byte stream, `SharedMemoryStream`. It collects written bytes in an
in-memory buffer and persists them, on `Flush`, into a named shared-memory
file, `SharedMemoryFile`. Another process can then open the file by name and
read the bytes back.

The model is functional:

- **Stream record.** A stream is an immutable record `Stream`. It holds the
  stream's name, `length`, `position`, the in-memory `buffer`, an optional
  file handle and a disposed flag.
- **Transitions.** Every stream operation is a pure function from a stream to
  a new stream, or to an error.
- **The store.** The operating system's namespace of named memory-mapped
  objects is a `Store = map<string, File>`. A `File` is a size together with
  exactly that many bytes.
- **Handles.** A `Handle` stands for a SharedMemoryFile object. It holds the
  name it maps, the size it reports and whether it has been disposed.
- **Operations that touch a file.** These take the store, and return it when
  they change it.

Files:

- `results.dfy`: `Option`, `Result` and the `Error` kinds, one per exception
  the C# code throws.
- `bytes.dfy`: the byte type, `Zeros`, LINQ's `Skip/Take` and `Overlay`.
  `Overlay` copies one sequence into another at an offset and drops whatever
  falls past the end.
- `shared_memory_file.dfy`: the file API, in two parts.
  - The code written out in `SharedMemoryFile.cs`: `Create`, `OpenSized`,
    `WriteAll`, `ReadAll` and `Dispose`.
  - The API the stream and the tests call, with contracts taken from
    `SharedMemoryFileTests.cs`: `CreateOrOpen`, `Open`, `WriteAt`, `ReadAt`,
    `ReadInto` and `Resize`.
- `shared_memory_stream.dfy`: the stream.
- `shared_memory_file_facts.dfy` and `shared_memory_stream_facts.dfy`: lemmas
  that relate several operations. They cover round trips, idempotence and the
  algebra of `Seek` and `SetLength`.
- `scenarios.dfy`: the scenarios of the two test files, each stated for
  every store in which its names are free, plus
  `StreamReadPastShortenedLength`, which shows the length rule of
  SharedMemoryStream.cs:137-139 on an existing 100-byte file.

Where the code behaves in ways that are easy to misread, the model follows the code:

- `Write` appends at the end of the buffer whatever the position is. It does
  not overwrite at the position.
- `Flush` always runs, even when the buffer is empty. The buffer is never
  `None`, so the `None` branches at SharedMemoryStream.cs:93 and :113 cannot
  run.
- Once a file is attached, `Read` sizes its reads by the file's `Size` and
  takes the bytes from the file. It appends only the bytes it read to the
  buffer, not the whole file.
- `Read` grows the length by the count read (`length + n`), not up to the
  position, and only when the new position has passed the length.
  `StreamReadPastShortenedLength` shows a read that leaves the length 10
  beyond the position.
- `SetLength` does not move the position. So `position <= length` is not an
  invariant: `ShrinkLeavesPositionPastEnd` exhibits a stream whose position is
  past its length.
- `SharedMemoryFile.cs` has no size header. `Open(name, size)` takes
  the size from its caller. No header is modelled.

## Model

| member | source | states |
|---|---|---|
| SharedMemoryFile.Create | Psns.Common.InterProcess/SharedMemoryFile.cs:23-29 | succeeds exactly when the name is non-empty, the size positive and the name free; the new file has the requested size, is zero-filled, and no other name changes; otherwise fails with EmptyName, then NonPositiveCapacity, then AlreadyExists, in CreateNew's order |
| SharedMemoryFile.OpenSized | Psns.Common.InterProcess/SharedMemoryFile.cs:18-21 | succeeds exactly when the name is non-empty and exists, and the handle reports the caller's size whatever the mapping's size; the empty name fails with EmptyName and a missing one with FileNotFound |
| SharedMemoryFile.WriteAll | Psns.Common.InterProcess/SharedMemoryFile.cs:31-37 | succeeds exactly when the handle is live and the data fits the mapping; the file then starts with the data, keeps its later bytes and its size, and no other name changes |
| SharedMemoryFile.ReadAll | Psns.Common.InterProcess/SharedMemoryFile.cs:39-49 | returns exactly the handle's Size bytes: the mapping's first min(Size, mapping size) bytes, then zeros where the handle reports more than the mapping holds; fails only on a disposed handle |
| SharedMemoryFile.Dispose | Psns.Common.InterProcess/SharedMemoryFile.cs:55-71 | the first call frees the name and marks the handle disposed, leaving other names alone; a call on a disposed handle changes nothing |
| SharedMemoryFile.CreateOrOpen | Psns.Common.InterProcess.Tests/SharedMemoryFileTests.cs:30-44 | a name in use is opened unchanged with its existing size (the requested size is ignored); a free name gets a zero-filled file of the requested size; either way the handle is in step with its file |
| SharedMemoryFile.Open | Psns.Common.InterProcess.Tests/SharedMemoryFileTests.cs:47-51 | succeeds exactly when the name exists, with a handle reporting the file's size; otherwise fails with "SharedMemoryFile <name> does not exist" |
| SharedMemoryFile.WriteAt | Psns.Common.InterProcess.Tests/SharedMemoryFileTests.cs:92-108 | byte by byte: positions in [position, position+count) take the source bytes, every other byte and the size stay as they were, and bytes past the end are dropped; fails only on a dead handle |
| SharedMemoryFile.ReadAt | Psns.Common.InterProcess.Tests/SharedMemoryFileTests.cs:61-77 | copies file bytes [position, position+count) into buffer[offset, offset+count) and leaves the rest of the buffer alone; fails exactly when the handle is dead or the range passes the file's end |
| SharedMemoryFile.ReadInto | Psns.Common.InterProcess.Tests/SharedMemoryFileTests.cs:17-23 | fills the first min(buffer length, Size) bytes of the buffer from the file's start and leaves the rest; cannot fail on a handle in step with its file |
| SharedMemoryFile.Resize | Psns.Common.InterProcess.Tests/SharedMemoryFileTests.cs:110-130 | the new handle reports the new size; the first min(old, new) bytes are preserved and the grown tail is zero; other names are untouched; fails only on a dead handle |
| SharedMemoryFileFacts.WriteThenReadAt | Psns.Common.InterProcess.Tests/SharedMemoryFileTests.cs:61-77 | bytes written at a position inside the file are read back unchanged from that position, into any part of any buffer |
| SharedMemoryFileFacts.WriteKeepsAtMostSizeBytes | Psns.Common.InterProcess.Tests/SharedMemoryFileTests.cs:12-27 | writing more than Size bytes keeps only the first Size of them, and a shorter write keeps the file's tail; Size never changes; a read returns the result |
| SharedMemoryFileFacts.SecondCreateOrOpenSeesFirst | Psns.Common.InterProcess.Tests/SharedMemoryFileTests.cs:30-44 | a second CreateOrOpen of a name in use leaves the store as it is, reports the first size, and sees the bytes written through the first handle |
| SharedMemoryFileFacts.DisposeIsIdempotent | Psns.Common.InterProcess/SharedMemoryFile.cs:55-66 | disposing an already disposed handle changes neither the store nor the handle |
| SharedMemoryFileFacts.DisposeFreesName | Psns.Common.InterProcess.Tests/SharedMemoryFileTests.cs:53-58 | after Dispose the name is free, and CreateOrOpen under it allocates a fresh file of the requested size |
| SharedMemoryFileFacts.GrowThenShrinkRestores | Psns.Common.InterProcess.Tests/SharedMemoryFileTests.cs:110-130 | resizing up and back down to the old size restores the store exactly |
| SharedMemoryFileFacts.CreateThenReadAllGivesSizeBytes | Psns.Common.InterProcess/SharedMemoryFile.cs:23-49 | for a non-empty free name and a positive size, Create followed by Read returns exactly Size zero bytes, and a second Create of the name fails with AlreadyExists |
| SharedMemoryFileFacts.WriteAllThenReadAll | Psns.Common.InterProcess/SharedMemoryFile.cs:31-49 | Write(data) then Read returns the data followed by the file's old bytes beyond it |
| SharedMemoryFileFacts.CreateWriteOpenSizedReadAll | Psns.Common.InterProcess/SharedMemoryFile.cs:18-49 | Open(name, size) fails before Create; after Create and Write(data), an object opened with Open(name, size) reads data followed by zeros |
| SharedMemoryFileFacts.OpenLargerReadsZeroTail | Psns.Common.InterProcess/SharedMemoryFile.cs:18-49 | after Create and Write(data), an object opened with a size larger than the mapping reads the whole mapping (data, then the mapping's zeros) followed by zeros up to its own Size, instead of failing |
| SharedMemoryStream.Construct | Psns.Common.InterProcess/SharedMemoryStream.cs:21-30 | an empty buffer and position 0; the length is the file's Size when a file is given and 0 otherwise |
| SharedMemoryStream.Create | Psns.Common.InterProcess/SharedMemoryStream.cs:39 | position 0, length 0, an empty buffer, no file, not disposed |
| SharedMemoryStream.Open | Psns.Common.InterProcess/SharedMemoryStream.cs:46 | succeeds exactly when the name exists; position 0, an empty buffer, the length equal to the file's Size, and a file handle in step with the store; otherwise the file's "does not exist" error |
| SharedMemoryStream.SetPosition | Psns.Common.InterProcess/SharedMemoryStream.cs:71 | the setter moves the position and changes nothing else |
| SharedMemoryStream.Write | Psns.Common.InterProcess/SharedMemoryStream.cs:202-212 | appends buffer[offset..offset+count) at the end of the buffer whatever the position; position and length both grow by exactly count; a short array appends only what it has |
| SharedMemoryStream.SetLength | Psns.Common.InterProcess/SharedMemoryStream.cs:181-194 | keeps the first min(count, value) bytes, zero-pads up to value, and makes the length the buffer's count (0 for a negative value); the position is untouched |
| SharedMemoryStream.Seek | Psns.Common.InterProcess/SharedMemoryStream.cs:151-175 | succeeds exactly when offset / position+offset / length+offset lies in [0, length]; below 0 fails "before beginning" and above length fails "beyond end"; on success only the position changes |
| SharedMemoryStream.StreamRead | Psns.Common.InterProcess/SharedMemoryStream.cs:242-245 | the destination gets the buffer bytes at the position in [offset, offset+count) and keeps everything else |
| SharedMemoryStream.FileRead | Psns.Common.InterProcess/SharedMemoryStream.cs:225-233 | the destination gets the file bytes at the position, and those same bytes are appended to the stream's buffer; fails exactly when the file read would |
| SharedMemoryStream.Advance | Psns.Common.InterProcess/SharedMemoryStream.cs:135-139 | the position moves on by n; when the new position passes the length, the length becomes length + n (not the new position), otherwise it stays |
| SharedMemoryStream.ReadAvailable | Psns.Common.InterProcess/SharedMemoryStream.cs:127-141 | copies n source bytes from the position into the destination at offset and keeps the rest of it; moves the position on by n; the length becomes length + n when the new position passes it and otherwise stays; with a file the bytes are also appended to the buffer; cannot fail without a file or on a coherent stream, and keeps the stream coherent |
| SharedMemoryStream.Read | Psns.Common.InterProcess/SharedMemoryStream.cs:109-143 | at or past the source size (file Size, else buffer count) returns 0 and changes nothing; otherwise reads n = min(count, size - position) bytes and advances the position by n, setting the length to length + n when the new position passes it and leaving it otherwise; without a file the bytes come from the buffer, with one from the file and are appended to the buffer; cannot fail on a coherent stream |
| SharedMemoryStream.FlushTarget | Psns.Common.InterProcess/SharedMemoryStream.cs:83-86 | on a coherent stream: a file of the stream's name in step with its handle, of the flushed size (the existing size, or the length when that is larger; the buffer's size for a fresh name), holding the prior bytes with zeros in new space; no other name changes; cannot fail without a file |
| SharedMemoryStream.FlushInto | Psns.Common.InterProcess/SharedMemoryStream.cs:88-91 | byte by byte, the file starts with the buffer (cut at the file's size) and keeps its later bytes and its size; no other name changes; the stream holds the file with an empty buffer at position 0; fails exactly when the handle is dead |
| SharedMemoryStream.Flush | Psns.Common.InterProcess/SharedMemoryStream.cs:76-94 | empties the buffer, rewinds the position to 0 and keeps the length; the file has the flushed size and begins with the buffer, every later byte is as before (zero in new space), and no other name changes; cannot fail on a coherent stream |
| SharedMemoryStream.Dispose | Psns.Common.InterProcess/SharedMemoryStream.cs:257-268 | the first call disposes the attached file (freeing its name) and marks the stream disposed, keeping every other field; with no file it only sets the flag; a second call changes nothing |
| SharedMemoryStreamFacts.WrittenBytesReadBack | Psns.Common.InterProcess/SharedMemoryStream.cs:202-212 | on a stream with no file, seeking back to the old end and reading returns exactly the bytes just written, leaving position = length |
| SharedMemoryStreamFacts.BufferedReadReturnsSlice | Psns.Common.InterProcess/SharedMemoryStream.cs:242-245 | without a file, a read that fits returns buffer[position..position+n) and only moves the position |
| SharedMemoryStreamFacts.FlushedBufferReadsBack | Psns.Common.InterProcess.Tests/SharedMemoryStreamTests.cs:55-68 | flushing a fileless stream under a free name, then opening a second stream on the name and reading, returns exactly the buffer |
| SharedMemoryStreamFacts.FlushBindsTheFile | Psns.Common.InterProcess/SharedMemoryStream.cs:76-94 | after a flush the stream holds a file, and further reads and flushes cannot fail |
| SharedMemoryStreamFacts.SeekOriginsAgree | Psns.Common.InterProcess/SharedMemoryStream.cs:155-168 | seeking from Current or End equals seeking from Begin to position+offset or length+offset |
| SharedMemoryStreamFacts.SeekZero | Psns.Common.InterProcess/SharedMemoryStream.cs:151-175 | Seek(0, Current) succeeds exactly when position <= length and then changes nothing; Seek(0, End) moves to the length |
| SharedMemoryStreamFacts.SeekIsIdempotent | Psns.Common.InterProcess/SharedMemoryStream.cs:170-174 | after a successful seek, seeking from Begin to the position reached changes nothing |
| SharedMemoryStreamFacts.SetLengthIsIdempotent | Psns.Common.InterProcess/SharedMemoryStream.cs:181-194 | setting the same length twice is setting it once |
| SharedMemoryStreamFacts.ShrinkThenGrowZeroFills | Psns.Common.InterProcess/SharedMemoryStream.cs:188-190 | truncating and then extending keeps the surviving prefix and zero-fills the rest |
| SharedMemoryStreamFacts.ShrinkLeavesPositionPastEnd | Psns.Common.InterProcess/SharedMemoryStream.cs:181-194 | shrinking below the position leaves position > length, and a read there returns 0 |
| SharedMemoryStreamFacts.ReadAtEndIsStable | Psns.Common.InterProcess/SharedMemoryStream.cs:123-124 | at or past the source size every read returns 0 and changes nothing, however often repeated |
| SharedMemoryStreamFacts.ReadPastLengthKeepsGap | Psns.Common.InterProcess/SharedMemoryStream.cs:135-139 | a read whose new position passes the length keeps length - position unchanged, so the length ends away from the position unless they started equal |
| SharedMemoryStreamFacts.FileReadCachesBytes | Psns.Common.InterProcess/SharedMemoryStream.cs:229-231 | with a file attached, a read appends the very file bytes it returned to the buffer |
| SharedMemoryStreamFacts.DisposeIsIdempotent | Psns.Common.InterProcess/SharedMemoryStream.cs:257-268 | disposing a disposed stream changes neither the store nor the stream |
| SharedMemoryStreamFacts.DisposeFreesFile | Psns.Common.InterProcess/SharedMemoryStream.cs:261-262 | disposing a stream bound to a file removes exactly that file's name from the store |
| Scenarios.FileTruncatesLongWrite | Psns.Common.InterProcess.Tests/SharedMemoryFileTests.cs:12-27 | [1..6] written into a 5-byte file reads back through a second handle as [1..5] |
| Scenarios.FileOpensExistingOnCreate | Psns.Common.InterProcess.Tests/SharedMemoryFileTests.cs:30-44 | CreateOrOpen("file2", 5) after CreateOrOpen("file2", 2) reports size 2 and reads back [1, 2] |
| Scenarios.FileOpenOfMissingNameFails | Psns.Common.InterProcess.Tests/SharedMemoryFileTests.cs:47-51 | Open("null") fails with "SharedMemoryFile null does not exist" |
| Scenarios.FileNameReusableAfterDispose | Psns.Common.InterProcess.Tests/SharedMemoryFileTests.cs:53-58 | create, dispose, create again under the same name succeeds, and disposing that leaves the store as it began |
| Scenarios.FileReadsSpecifiedView | Psns.Common.InterProcess.Tests/SharedMemoryFileTests.cs:61-77 | Read(2, buffer, 7, 3) after writing [1..5] puts [3, 4, 5] at buffer[7..] |
| Scenarios.FileReportsItsSize | Psns.Common.InterProcess.Tests/SharedMemoryFileTests.cs:80-89 | a file created with 0xEE6B2800 bytes reports that Size |
| Scenarios.FileWriteOverwritesPrefix | Psns.Common.InterProcess.Tests/SharedMemoryFileTests.cs:92-108 | [7, 8] written at 0 over [1, 2, 3, 4] reads back as [7, 8, 3, 4] |
| Scenarios.FileResizeKeepsSharedPrefix | Psns.Common.InterProcess.Tests/SharedMemoryFileTests.cs:110-130 | resizing a 4-byte file by +2 or -2 gives the new Size and keeps the bytes both sizes share |
| Scenarios.StreamStartsEmpty | Psns.Common.InterProcess.Tests/SharedMemoryStreamTests.cs:207-212 | a created stream has position 0 and length 0 |
| Scenarios.StreamReturnsDataIntraprocess | Psns.Common.InterProcess.Tests/SharedMemoryStreamTests.cs:46-52 | for any payload (the test's is [1..5]): write it, seek to 0, read as many bytes, and the payload comes back |
| Scenarios.StreamReturnsDataInterprocess | Psns.Common.InterProcess.Tests/SharedMemoryStreamTests.cs:55-68 | for any payload (the test's is [1..5]) and a free name: write and flush; a stream opened on the name reads the payload back |
| Scenarios.StreamReturnsTwoPayloads | Psns.Common.InterProcess.Tests/SharedMemoryStreamTests.cs:71-91 | for any two payloads (the test's are [1..5] and [6, 7, 8]): write both, seek to 0, read each by its length and get each back in order; a further read returns 0, and length = position = the total |
| Scenarios.StreamSetLengthThenRead | Psns.Common.InterProcess.Tests/SharedMemoryStreamTests.cs:101-116 | after any 1000 written bytes, SetLength(n) gives length n, and reading n bytes returns n - 1000 of them, or 0 when n <= 1000 |
| Scenarios.StreamSeekBoundaries | Psns.Common.InterProcess.Tests/SharedMemoryStreamTests.cs:147-193 | on any ten written bytes: Begin 5 gives 5, Current -3 gives 7, End -4 gives 6, Begin -1 fails before the beginning, Begin 11 fails beyond the end |
| Scenarios.StreamReadPastShortenedLength | Psns.Common.InterProcess/SharedMemoryStream.cs:115-139 | a stream opened on a 100-byte file, set to length 10, reads 50 bytes and ends at position 50 with length 60 |

## Left out

- Server.cs (the asynchronous named-pipe accept loop), Client.cs (a blocking
  pipe connect and one `ReadLine`) and FunctionalExtensions.cs (`tee`) are
  not part of this model. They are concurrency and operating-system I/O with
  no state logic of their own.
- The implementation of the newer SharedMemoryFile API is not part of this
  model. That API is `CreateOrOpen`, `Open(name)`, `Size`, `Resize`,
  positional `Read` and a `Write` that returns the file. Its contracts are
  taken from SharedMemoryFileTests.cs.
  - A positional write that reaches past the end of the file drops the extra
    bytes, as the tests show for writes at offset 0.
  - A fresh mapping is zero-filled, so the tail that `Resize` grows is zero.
- SharedMemoryFile.Dispose: frees the name at once. Operating-system
  reference counting of mappings still held by other handles is not
  modelled. Handles are identified by name, so a stale handle (one passed
  to `Resize`, or opened before it) acts on whatever mapping now holds
  that name.
- Memory-mapped internals are not modelled: view accessors, page-size
  rounding of capacities and operating-system name lookup. The name-keyed
  store stands in for all of them.
- No binary size header or byte order is modelled, because
  `SharedMemoryFile.cs` has none.
- The interprocess test runs its reader on another task. Here it is a
  sequential call on the same store.
- `long` and `int` widths are not modelled: positions, lengths and sizes
  are unbounded. The `(int)` casts in `Read` (:130) and `SetLength` (:189)
  cannot truncate here.
- Negative `offset` and `count` arguments to `Read` and `Write` are not
  modelled. They are `nat`, as the .NET `Stream` contract demands of
  callers.
- SharedMemoryStream.Read: requires `offset + count` to fit in the
  destination array. This is the .NET `Stream` contract's obligation on
  callers, which this code does not check: it copies only the bytes it
  actually reads (:133, :229, :244), so a short array near the end of the
  stream, or any array at the end, does not make it throw. Such calls are
  not modelled.
- SharedMemoryStream.SetPosition: takes a `nat`. The `Position` setter
  (:71) stores any `long` unchecked, so a negative position, and the reads
  and seeks that would follow from one, are not modelled. The .NET `Stream`
  contract obliges callers not to set one.
- SharedMemoryFile.Create: sizes are `nat`, so only a zero capacity stands
  for the capacities `CreateNew` refuses; a negative `long` size is not
  modelled. The same holds for `OpenSized`: `Open(name, -1)` succeeds in
  the source and its later `Read()` throws allocating the buffer, which the
  model cannot express.
- SharedMemoryFile.CreateOrOpen: whether the newer API refuses the empty
  name or a zero size is not known, because its implementation is not part
  of this model. The model opens or allocates in every case, so `Flush` of
  an empty buffer with no file attached creates an empty file.
- `CanRead`, `CanSeek` and `CanWrite` are constants (always true), and the
  `Length` getter just returns the length field. None of them has anything
  to state.
- `Dispose(false)` (the finalizer path) and `base.Dispose` are not modelled.
  Only the public `Dispose()` is modelled, which passes `true`.
- The `None` branch of `FileRead` (:227) is not modelled. It cannot run,
  because `FileRead` is only chosen when a file is attached.
