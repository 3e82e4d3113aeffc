/** A named shared-memory file, modelled as a sized byte sequence kept in a
    name-keyed store that plays the role of the operating system's namespace
    of named memory-mapped objects (and of the process's name registry).

    Two generations of the API are modelled:
    - the one written out in SharedMemoryFile.cs: `Create`, `Open(name, size)`,
      a whole-buffer `Write(data)`, a whole-file `Read()` and `Dispose`;
    - the one the stream and the tests call: `CreateOrOpen`, `Open(name)`,
      `Size`, `Resize`, a positional `Read` and a `Write` that returns the file. */
module SharedMemoryFile {
  import opened Bytes
  import opened Results

  /** The operating-system mapping behind a name: its capacity and its bytes. */
  datatype Mapping = Mapping(size: nat, data: seq<byte>)

  /** A mapping that holds exactly `size` bytes. */
  type File = m: Mapping | |m.data| == m.size witness Mapping(0, [])

  /** Every live named mapping. */
  type Store = map<string, File>

  /** A SharedMemoryFile object: the name it maps, the size it reports
      (its `_size` field, fixed when the object is made) and whether
      `Dispose` has run on it. */
  datatype Handle = Handle(name: string, size: nat, disposed: bool)

  function NotFoundMessage(name: string): string {
    "SharedMemoryFile " + name + " does not exist"
  }

  /** The handle has not been disposed and its name still maps to something. */
  predicate Live(store: Store, h: Handle) {
    !h.disposed && h.name in store
  }

  /** Live, and the size the handle reports is the size of its mapping. */
  predicate InSync(store: Store, h: Handle) {
    Live(store, h) && store[h.name].size == h.size
  }

  /** A newly allocated mapping: the operating system hands it out zero-filled. */
  function Blank(size: nat): (f: File)
    ensures f.size == size && f.data == Zeros(size)
  {
    Mapping(size, Zeros(size))
  }

  // ---------------------------------------------------------------------
  // The API written out in SharedMemoryFile.cs
  // ---------------------------------------------------------------------

  /** `Create(name, size)`: MemoryMappedFile.CreateNew, which refuses the
      empty name, then a capacity that is not positive, then a name that is
      already taken. */
  function Create(store: Store, name: string, size: nat): (r: Result<(Store, Handle)>)
    ensures r.Ok? <==> name != "" && size > 0 && name !in store
    ensures name == "" ==> r == Err(EmptyName)
    ensures name != "" && size == 0 ==> r == Err(NonPositiveCapacity)
    ensures name != "" && size > 0 && name in store ==> r == Err(AlreadyExists(name))
    ensures r.Ok? ==>
      var (st, h) := r.value;
      && InSync(st, h) && h.name == name && h.size == size
      && st[name].data == Zeros(size)
      && st - {name} == store
  {
    if name == "" then Err(EmptyName)
    else if size == 0 then Err(NonPositiveCapacity)
    else if name in store then Err(AlreadyExists(name))
    else Ok((store[name := Blank(size)], Handle(name, size, false)))
  }

  /** `Open(name, size)`: MemoryMappedFile.OpenExisting, which refuses the
      empty name and a name nobody created. The size the object reports is
      whatever the caller passed, not the size of the mapping. */
  function OpenSized(store: Store, name: string, size: nat): (r: Result<Handle>)
    ensures r.Ok? <==> name != "" && name in store
    ensures name == "" ==> r == Err(EmptyName)
    ensures name != "" && name !in store ==> r == Err(FileNotFound(name))
    ensures r.Ok? ==> Live(store, r.value) && r.value.name == name && r.value.size == size
  {
    if name == "" then Err(EmptyName)
    else if name in store then Ok(Handle(name, size, false))
    else Err(FileNotFound(name))
  }

  /** `Write(data)`: a view of `|data|` bytes at offset 0, into which the whole
      of `data` is copied; a view longer than the mapping cannot be made. */
  function WriteAll(store: Store, h: Handle, data: seq<byte>): (r: Result<Store>)
    ensures r.Ok? <==> Live(store, h) && |data| <= store[h.name].size
    ensures !Live(store, h) ==> r == Err(ObjectDisposed)
    ensures Live(store, h) && |data| > store[h.name].size ==> r == Err(OutOfRange)
    ensures r.Ok? ==>
      && h.name in r.value
      && r.value[h.name].size == store[h.name].size
      && r.value[h.name].data == data + store[h.name].data[|data|..]
      && r.value - {h.name} == store - {h.name}
  {
    if !Live(store, h) then Err(ObjectDisposed)
    else
      var f := store[h.name];
      if |data| > f.size then Err(OutOfRange)
      else Ok(store[h.name := Mapping(f.size, Overlay(f.data, 0, data))])
  }

  /** `Read()`: a buffer of the handle's own size, filled from offset 0 of a
      view over the whole mapping. The view's `ReadArray` copies only what
      the mapping holds, so when the handle reports more than that the rest
      of the buffer stays zero. */
  function ReadAll(store: Store, h: Handle): (r: Result<seq<byte>>)
    ensures r.Ok? <==> Live(store, h)
    ensures !Live(store, h) ==> r == Err(ObjectDisposed)
    ensures r.Ok? ==>
      var k := Min(h.size, store[h.name].size);
      && |r.value| == h.size
      && r.value[..k] == store[h.name].data[..k]
      && r.value[k..] == Zeros(h.size - k)
  {
    if !Live(store, h) then Err(ObjectDisposed)
    else
      var f := store[h.name];
      var k := Min(h.size, f.size);
      Ok(f.data[..k] + Zeros(h.size - k))
  }

  /** `Dispose()`: releases the mapping and frees its name. A second call on
      the same object does nothing. */
  function Dispose(store: Store, h: Handle): (r: (Store, Handle))
    ensures r.1 == h.(disposed := true)
    ensures h.disposed ==> r.0 == store
    ensures !h.disposed ==> h.name !in r.0 && r.0 - {h.name} == store - {h.name}
  {
    if h.disposed then (store, h)
    else (store - {h.name}, h.(disposed := true))
  }

  // ---------------------------------------------------------------------
  // The API the stream and the tests rely on
  // ---------------------------------------------------------------------

  /** `CreateOrOpen(name, size)`: a name already in use is opened as it is
      (the requested size is ignored); otherwise a zero-filled mapping of
      `size` bytes is allocated under it. */
  function CreateOrOpen(store: Store, name: string, size: nat): (r: (Store, Handle))
    ensures InSync(r.0, r.1) && r.1.name == name
    ensures name in store ==> r.0 == store && r.1.size == store[name].size
    ensures name !in store ==>
      r.1.size == size && r.0[name].data == Zeros(size) && r.0 - {name} == store
  {
    if name in store then (store, Handle(name, store[name].size, false))
    else (store[name := Blank(size)], Handle(name, size, false))
  }

  /** `Open(name)`: a handle onto an existing mapping, reporting its size. */
  function Open(store: Store, name: string): (r: Result<Handle>)
    ensures r.Ok? <==> name in store
    ensures r.Ok? ==> InSync(store, r.value) && r.value.name == name
    ensures r.Err? ==> r.error == InvalidOperation(NotFoundMessage(name))
  {
    if name in store then Ok(Handle(name, store[name].size, false))
    else Err(InvalidOperation(NotFoundMessage(name)))
  }

  /** `Write(position, buffer, offset, count)`: copies `buffer[offset..offset+count)`
      into the mapping from `position` on. Bytes that would fall past the end
      of the mapping are dropped; the size never changes. The handle is
      returned. `Write(buffer)` and `Write(buffer, offset, count)` are this
      operation at position 0. */
  function WriteAt(store: Store, h: Handle, position: nat, buffer: seq<byte>, offset: nat, count: nat)
    : (r: Result<(Store, Handle)>)
    requires offset + count <= |buffer|
    ensures r.Ok? <==> Live(store, h)
    ensures r.Err? ==> r.error == ObjectDisposed
    ensures r.Ok? ==>
      var (st, h') := r.value;
      && h' == h && h.name in st
      && st[h.name].size == store[h.name].size
      && st - {h.name} == store - {h.name}
      && forall i :: 0 <= i < st[h.name].size ==>
           st[h.name].data[i] ==
             (if position <= i < position + count then buffer[offset + i - position]
              else store[h.name].data[i])
  {
    if !Live(store, h) then Err(ObjectDisposed)
    else
      var f := store[h.name];
      Ok((store[h.name := Mapping(f.size, Overlay(f.data, position, buffer[offset..offset + count]))], h))
  }

  /** `Read(position, buffer, offset, count)`: copies mapping bytes
      `[position, position+count)` into `buffer[offset, offset+count)`,
      leaving the rest of `buffer` as it was. */
  function ReadAt(store: Store, h: Handle, position: nat, buffer: seq<byte>, offset: nat, count: nat)
    : (r: Result<seq<byte>>)
    requires offset + count <= |buffer|
    ensures r.Ok? <==> Live(store, h) && position + count <= store[h.name].size
    ensures !Live(store, h) ==> r == Err(ObjectDisposed)
    ensures r.Ok? ==>
      && |r.value| == |buffer|
      && r.value[offset..offset + count] == store[h.name].data[position..position + count]
      && r.value[..offset] == buffer[..offset]
      && r.value[offset + count..] == buffer[offset + count..]
  {
    if !Live(store, h) then Err(ObjectDisposed)
    else
      var f := store[h.name];
      if position + count > f.size then Err(OutOfRange)
      else Ok(Overlay(buffer, offset, f.data[position..position + count]))
  }

  /** `Read(buffer)`: fills as much of `buffer` as the file's size allows,
      from offset 0. */
  function ReadInto(store: Store, h: Handle, buffer: seq<byte>): (r: Result<seq<byte>>)
    ensures r.Ok? <==> Live(store, h) && Min(|buffer|, h.size) <= store[h.name].size
    ensures InSync(store, h) ==> r.Ok?
    ensures r.Ok? ==>
      var k := Min(|buffer|, h.size);
      && |r.value| == |buffer|
      && r.value[..k] == store[h.name].data[..k]
      && r.value[k..] == buffer[k..]
  {
    ReadAt(store, h, 0, buffer, 0, Min(|buffer|, h.size))
  }

  /** `Resize(newSize)`: copies out the first `min(Size, newSize)` bytes,
      disposes the mapping (freeing the name), creates a new mapping of
      `newSize` bytes under the same name and writes the copied bytes back
      at offset 0. */
  function Resize(store: Store, h: Handle, newSize: nat): (r: Result<(Store, Handle)>)
    ensures r.Ok? <==> Live(store, h)
    ensures r.Err? ==> r.error == ObjectDisposed
    ensures r.Ok? ==>
      var (st, h') := r.value;
      var keep := Min(store[h.name].size, newSize);
      && InSync(st, h') && h'.name == h.name && h'.size == newSize
      && st[h.name].data[..keep] == store[h.name].data[..keep]
      && st[h.name].data[keep..] == Zeros(newSize - keep)
      && st - {h.name} == store - {h.name}
  {
    if !Live(store, h) then Err(ObjectDisposed)
    else
      var kept := store[h.name].data[..Min(store[h.name].size, newSize)];
      var (freed, _) := Dispose(store, h);
      var (created, h') := CreateOrOpen(freed, h.name, newSize);
      var r := WriteAt(created, h', 0, kept, 0, |kept|);
      assert r.Ok? && r.value.0[h.name].data == kept + Zeros(newSize - |kept|) by {
        var d := r.value.0[h.name].data;
        forall i | 0 <= i < newSize
          ensures d[i] == (kept + Zeros(newSize - |kept|))[i]
        {
        }
      }
      r
  }
}
